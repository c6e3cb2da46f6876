# A verified model of the sponge TCP/IP stack

This project models the user-space TCP/IP stack in `libsponge` and proves what it promises. Four parts
are covered: the TCP pair (byte stream, reassembler, receiver, sender, connection), the wire formats with
the Internet checksum, the network interface with its ARP cache, and the router.

Every stateful class of the stack appears twice. A `class` keeps the fields, arrays, queues and loops of
the implementation, and each of its methods is proved equal to a step on an immutable value. The value
steps are closed forms rather than copies of the loops: reassembly is a map from indices to bytes instead
of a bitmap, filling the window is one cut of the buffer instead of a loop, the queue of segments in flight
is a sequence instead of a priority queue. The theorems are about the values.

The main results:

- **End-to-end safety** (`TcpLink.EndToEndSafety`, `TcpDuplex.BothDirectionsSafe`). Over a network that may
  drop, duplicate and reorder anything ever sent, what the receiving application gets is a prefix of what
  the sending one wrote: for a freely scheduled sender and receiver, and for two complete connections.
- **No byte is lost** (`TcpLink.NothingLostOverRuns`) on every run in which each delivered FIN meets a guard,
  whatever happens to the acknowledgments. The guard is exact (`TwoParty.FinGuardIsExact`), what an
  unguarded FIN makes the receiver acknowledge is stated (`TwoParty.OverAcksExactly`), and runs that break
  each half of the guard are exhibited (`OvertakingFin.OvertakingFinLosesAByte`,
  `OutsideFin.OutsideFinAcksAMissingByte`).
- **Flow control** (`TcpLink.WindowNeverOverrun`). With acknowledgments taken in order and no bare FIN
  overtaking the byte before it, the unsigned subtraction in `fill_window` never wraps, and the window half
  of the FIN guard follows by itself. For every acknowledgment at all, the exact condition for the window to
  stay respected is `SenderProperties.AckRespectsWindowExactly`.
- **Clean shutdown is sound** (`TcpConnecting.ShutdownIsSound`), and after a guarded run it means that both
  applications have everything (`TcpDuplex.CleanStopMeansAllDelivered`). It also happens: for every call it is
  stated exactly when a connection is active afterwards (`ConnectionSteps.ActiveExactly`).
- **Timeouts and answers reach the wire** (`ConnectionSteps.TickResends`, `ConnectionSteps.EmptyAnswerExactly`):
  what is resent, and exactly which segments are answered.
- **A connection never gives up early** (`ConnectionRuns.NeverGivesUpEarly`). Over every run of calls a
  healthy connection has retransmitted at most eight times in a row, and the tick that breaks it comes at
  least 511 initial timeouts after its creation.
- **Late writes** (`LateWrites.LateBytesSentExactly`). Bytes written after the stream was ended can still be
  sent if and only if FIN has not been sent yet: until then by a run with honest acknowledgments that respects
  the window, afterwards by no run.
- **The wire formats** are pinned byte by byte, for what is written and for reading arbitrary bytes
  (`WireLayout.TcpHeaderLayout`, `WireLayout.TcpHeaderRead`, `WireLayout.IpVerdictExactly`), and the
  encapsulation round-trips (`TcpOverIp.EncapsulationRoundTrip`).
- **Reassembly does not depend on order** (`ReassemblyOrder.PushOrderIrrelevant`), the **interface** conserves datagrams per hop in order
  (`NetworkInterfaces.EachDatagramOnceInOrder`), and the **router** implements longest-prefix match on bits
  (`Routers.DecidedExactly`, `Routers.MaskTestIsAgreement`) and drains its queues unless forwarding throws
  (`Routers.RoutingCompletesExactly`, `Routers.AbortedRouting`).

## Conventions

- `byte`, `u16`, `u32` and `u64` are ranges of integers. Where the stack relies on or suffers from a width
  (the 32-bit stream counters, the 64-bit index and window subtraction, the 16-bit window and length
  fields, the 32-bit timeout), the arithmetic is written out modulo that width.
- The network is the list of everything ever sent. Delivering any element of it at any time, again or
  never, covers loss, duplication and reordering.
- A `Discipline` says what is assumed of the network: `Anything`; `FinGuarded`, each delivered FIN meets
  `FinGuard`; `AcksInOrder`, acknowledgments are taken in the order they were made (losses and repetition
  of the latest allowed) and no bare FIN overtakes the byte before it.
- Stream lengths in two-party runs are limited so that all sequence numbers stay below 2^31. The 32-bit
  counters of the byte stream make larger totals meaningless to the receiver.
- The initial sequence number, elapsed time and received frames are parameters.

## Where the code departs from its documentation

- `end_input` signals that the byte stream has reached its ending; `write` accepts bytes afterwards all the
  same, exactly as before (`LateWrites.WriteAddsNothingExactly`). Until FIN is sent this is harmless: all runs
  considered here allow it. Afterwards the bytes are accepted and never sent
  (`LateWrites.LateByteNeverSent`), and that is the only way a write breaks the sender's invariant
  (`LateWrites.WriteInvExactly`).
- The receiver documents that `ackno` is the first byte not yet received. A FIN that lies outside the
  window, or a bare FIN that overtakes the last byte, makes it take the stream for complete, and from then on
  any delivery that leaves no gap below what has arrived makes it acknowledge a byte that is missing.
  `TwoParty.OverAcksExactly` gives the exact condition for every receiver and every segment.
- `_rwnd` is overwritten by any acknowledgment, however old. The window stays respected exactly when what the
  acknowledgment leaves outstanding fits the window it brings (`SenderProperties.AckRespectsWindowExactly`);
  otherwise the subtraction in `fill_window` wraps and everything buffered is sent at once
  (`SenderProperties.OverrunSendsEverything`). A run in which an acknowledgment the receiver really made does
  this is `StaleWindow.StaleAckOverrunsWindow`.
- `unwrap` returns the nearest sequence number only below 2^63.
- ARP requests are documented to be at least five seconds apart; the time of the request is not renewed, so
  within one waiting period the first five seconds are quiet and every send after that repeats the request
  (`NetworkInterfaces.WaitingPeriod`, `NetworkInterfaces.RequestsPileUp`).
- `IPv4Datagram::parse` ignores the verdict on the header, so a datagram of another version or with a short
  header reaches the router. Forwarding it throws out of `route`, and it stays at the front of its queue
  (`Routers.StrayVersionBlocksRouter`) until repeated calls have used up its time to live
  (`Routers.BlocksUntilAged`, `Routers.DrainsInTheEnd`). `Routers.RoutingCompletesExactly` says when that does
  not happen, and `Routers.AbortedRouting` what has been done and what remains when it does.
- `pop_output` asked for more than is buffered removes nothing and wraps its counters.

## Model

| member | source | states |
|---|---|---|
| WrappingIntegers.UnwrapNearest | libsponge/wrapping_integers.cc:31-36 | the result wraps back to the number and no natural number that does is closer to the checkpoint, exactly below 2^63 (and in one tie above) |
| WrappingIntegers.UnwrapWrap | libsponge/wrapping_integers.cc:15-36 | exactly which positions survive wrapping and unwrapping at a given checkpoint below 2^63, wherever the signed sum is defined |
| WrappingIntegers.UnwrapWrapAbove | libsponge/wrapping_integers.cc:15-36 | exactly which positions survive it at a checkpoint from 2^63 on, wherever the signed sum is defined |
| WrappingIntegers.UnwrapMissesAbove | libsponge/wrapping_integers.cc:34-35 | from 2^63 on, whatever the initial number, even the checkpoint itself is not recovered |
| WrappingIntegers.UnwrapSmall | libsponge/wrapping_integers.cc:31-36 | positions and checkpoints below 2^31 always round-trip |
| ByteStreams.ByteStream.constructor | libsponge/byte_stream.cc:10 | a new stream is empty, open and error-free |
| ByteStreams.ByteStream.Write | libsponge/byte_stream.cc:12-19 | accepts the longest prefix that fits and appends it to the history; counters wrap at 32 bits |
| ByteStreams.ByteStream.PeekOutput | libsponge/byte_stream.cc:22 | shows the buffered bytes in order; beyond them the raw buffer up to capacity |
| ByteStreams.ByteStream.PopOutput | libsponge/byte_stream.cc:25-30 | removes exactly the first bytes of what is buffered, by shifting in place; the stream stays consistent iff no more than that is asked for, otherwise the bytes are left alone and the 32-bit counters wrap |
| ByteStreams.ByteStream.Read | libsponge/byte_stream.cc:35-40 | returns the next bytes and removes exactly those |
| ByteStreams.ByteStream.Eof | libsponge/byte_stream.cc:50 | true iff ended and everything was read |
| ByteStreams.WriteKeepsOrder | libsponge/byte_stream.cc:12-19 | after a write the buffer is the old buffer followed by the accepted prefix, within capacity |
| StreamReassemblers.StreamReassembler.PushSubstring | libsponge/stream_reassembler.cc:16-34 | the bitmap implementation does what the map of pending bytes prescribes, in 64-bit index arithmetic |
| StreamReassemblers.StreamReassembler.CreateSegment | libsponge/stream_reassembler.cc:36-51 | exactly the clipped range is added, bytes already marked win, and the counter equals the number of marks |
| StreamReassemblers.StreamReassembler.WriteSegment | libsponge/stream_reassembler.cc:53-66 | moves exactly the maximal contiguous run to the output and re-bases buffer, bitmap and counter |
| StreamReassemblers.RunLengthUnique | libsponge/stream_reassembler.cc:54-59 | a run of marks that cannot be extended is the one the counting loop finds |
| StreamReassemblers.DropCount | libsponge/stream_reassembler.cc:61-65 | dropping the run removes exactly its length from the count |
| Reassembly.AssembleMovesRun | libsponge/stream_reassembler.cc:53-66 | writing to the output never truncates |
| Reassembly.PushValid | libsponge/stream_reassembler.cc:16-66 | pending bytes stay strictly beyond the assembled prefix and inside the window; the output only grows |
| Reassembly.PushKnows | libsponge/stream_reassembler.cc:16-66 | a push makes exactly the offered indices known, with the offered values, and changes no known byte |
| ReassemblyOrder.PushAgrees | libsponge/stream_reassembler.cc:16-66 | pieces cut from a stream leave only bytes of that stream at their own index |
| ReassemblyOrder.AgreesIsPrefix | libsponge/stream_reassembler.cc:16-66 | the output of such pushes is a prefix of the stream |
| ReassemblyOrder.PushAllKnows | libsponge/stream_reassembler.cc:16-66 | after any list of pushes exactly the initially known and offered indices are known, and EOF is recorded iff some end piece fitted |
| ReassemblyOrder.AssembledIsLeastMissing | libsponge/stream_reassembler.cc:16-66 | the number of bytes written is the least index neither known nor offered |
| ReassemblyOrder.PushOrderIrrelevant | libsponge/stream_reassembler.cc:16-66 | any permutation and duplication of the pieces leaves the same output, pending bytes and EOF mark |
| ReassemblyOrder.SameCoverSameResult | libsponge/stream_reassembler.cc:16-66 | so do different cuts that cover the same indices |
| ReassemblyOrder.EofSafeIsExact | libsponge/stream_reassembler.cc:23-31 | a piece keeps the recorded end backed by the last byte iff it brings that byte or the byte has arrived |
| ReassemblyOrder.SafePushEndsExactly | libsponge/stream_reassembler.cc:23-31 | with safe pieces the output is ended exactly when the whole stream is assembled |
| ReassemblyOrder.UnbackedEofEndsEarly | libsponge/stream_reassembler.cc:23-31 | once the end is not backed, one more ordinary piece ends the output with bytes missing |
| ReassemblyOrder.EmptyEofOvertakes | libsponge/stream_reassembler.cc:23-31 | concrete failure: an empty end piece offered first ends an empty output |
| ReassemblyOrder.CapacityRespected | libsponge/stream_reassembler.cc:17-20 | unread plus unassembled bytes never exceed the capacity |
| ReassemblyOrder.CapacityOverRuns | libsponge/stream_reassembler.cc:16-66 | the same after every interleaving of pushes and reads; the window edge never recedes |
| TcpReceivers.TCPReceiver.SegmentReceived | libsponge/tcp_receiver.cc:10-26 | ignores everything before SYN, then files the payload at its unwrapped index |
| TcpReceivers.TCPReceiver.Ackno | libsponge/tcp_receiver.cc:28-36 | the 32-bit sum is the wrapped position after SYN, the assembled bytes, and FIN if nothing is unassembled |
| TcpReceivers.TCPReceiver.WindowSize | libsponge/tcp_receiver.cc:38-41 | the space left in the stream's buffer |
| TcpReceivers.AcknoIn32Bits | libsponge/tcp_receiver.cc:33-34 | the chain of 32-bit additions is wrapping the absolute position |
| TcpSending.ChunksCorrect | libsponge/tcp_sender.cc:41-66 | segmentation carries exactly the data in order, tiles its sequence numbers and emits nothing empty |
| TcpSending.ChunksShaped | libsponge/tcp_sender.cc:46-64 | each segment has at most 1000 bytes, the slice its number says, and FIN only on the last |
| TcpSending.ChunksFull | libsponge/tcp_sender.cc:46-54 | all segments but the last carry exactly 1000 bytes |
| TcpSenders.OnePass | libsponge/tcp_sender.cc:41-66 | one pass of the loop, followed by the closed form on what is left, is the closed form |
| TcpSenders.SegmentQueue.Top | libsponge/tcp_sender.hh:44-52 | the least key of the priority queue is its oldest entry |
| TcpSenders.SegmentQueue.Push | libsponge/tcp_sender.cc:153 | insertion with growing keys appends |
| TcpSenders.SegmentQueue.Pop | libsponge/tcp_sender.cc:91 | removal takes the oldest entry |
| TcpSenders.TCPSender.constructor | libsponge/tcp_sender.cc:13-16 | initial state: nothing sent, a window of one, timer stopped |
| TcpSenders.TCPSender.SendSegment | libsponge/tcp_sender.cc:142-161 | numbers, queues and tracks the segment and starts the timer only if it was stopped |
| TcpSenders.TCPSender.FillWindow | libsponge/tcp_sender.cc:23-67 | the loop equals the closed form, including when the usable window wraps |
| TcpSenders.TCPSender.AckReceived | libsponge/tcp_sender.cc:71-108 | takes the window always, the acknowledgment only if new and sent, then fills the window |
| TcpSenders.TCPSender.DropAcknowledged | libsponge/tcp_sender.cc:86-94 | removes exactly the front segments that end at or before the acknowledgment |
| TcpSenders.TCPSender.Tick | libsponge/tcp_sender.cc:111-132 | on expiry resends the oldest segment and backs off unless the window is closed |
| TcpSenders.TCPSender.SendEmptySegment | libsponge/tcp_sender.cc:136-140 | queues an empty segment without tracking it |
| SenderInvariant.AckReceivedInv | libsponge/tcp_sender.cc:71-108 | any acknowledgment whatever, even a forged one, keeps the sender's invariant |
| SenderInvariant.FillWindowInv | libsponge/tcp_sender.cc:23-67 | new segments continue the tiling and carry the stream bytes their numbers say |
| SenderInvariant.TickInv | libsponge/tcp_sender.cc:111-132 | a tick resends exactly the lowest outstanding segment if its time is up and nothing otherwise; the timeout is initial times 2^n |
| SenderProperties.TickExactly | libsponge/tcp_sender.cc:111-132 | when the timer fires, what it counts and doubles, when it stops, and that nothing else changes |
| SenderProperties.AckExactly | libsponge/tcp_sender.cc:71-108 | a new acknowledgment forgets exactly what it covers, ends the series of retransmissions and restarts the timer for the rest; any other changes only the window |
| SenderProperties.FillStartsTimer | libsponge/tcp_sender.cc:156-160 | sending while the timer stands still starts it with the initial timeout |
| SenderProperties.FirstFillSendsSyn | libsponge/tcp_sender.cc:23-31 | the first filling queues exactly one segment, SYN at the initial sequence number |
| SenderProperties.OnlySynAtFirst | libsponge/tcp_sender.cc:23-44 | before the first acknowledgment nothing but SYN is sent, whatever is written |
| SenderProperties.EmptySegmentExactly | libsponge/tcp_sender.cc:136-140 | an empty segment carries the next sequence number and is not tracked |
| SenderInvariant.StepInv | libsponge/tcp_sender.cc:23-161 | every operation keeps the invariant, and streams only grow |
| SenderInvariant.NewSenderInv | libsponge/tcp_sender.hh:27-80 | a new sender satisfies the invariant |
| SenderInvariant.ReachableInv | libsponge/tcp_sender.cc:23-161 | in every reachable state the outstanding segments have increasing numbers and tile an interval from at or below the checkpoint to the next number, of length bytes_in_flight |
| SenderProperties.UsableExact | libsponge/tcp_sender.cc:38-39 | the unsigned subtraction is right iff no more is outstanding than the window |
| SenderProperties.FillWindowClosedForm | libsponge/tcp_sender.cc:38-66 | sends exactly min(room, buffered) bytes in order, FIN iff ended and room is left, and keeps within the window |
| SenderProperties.OverrunSendsEverything | libsponge/tcp_sender.cc:38-66 | once overrun, the whole buffer is sent at once |
| SenderProperties.FillStaysInWindow | libsponge/tcp_sender.cc:23-67 | what fill_window adds always fits the window |
| SenderProperties.AckRespectsWindowExactly | libsponge/tcp_sender.cc:71-108 | for every number and window, an acknowledgment leaves the window respected, and the subtraction made while taking it is right, iff what it leaves outstanding fits the window it brings |
| StaleWindow.StaleAckOverrunsWindow | libsponge/tcp_sender.cc:71-82 | concrete run in which a stale acknowledgment made by the receiver leaves two numbers outstanding in a window of one |
| SenderProperties.StaleWindowOverruns | libsponge/tcp_sender.cc:72-82 | whenever two numbers are outstanding, an old acknowledgment with a closed window overruns the window |
| SenderProperties.BackoffTakesTime | libsponge/tcp_sender.cc:111-127 | over every unanswered run the elapsed time covers the doubling periods |
| SenderProperties.GivingUpTakes510Timeouts | libsponge/tcp_sender.cc:111-131 | from the first unanswered retransmission to the ninth at least 510 initial timeouts pass |
| SenderProperties.SummaryIsPhase | libsponge/tcp_helpers/tcp_state.cc:94-110 | the phase read off the counters is the real one in every reachable error-free state |
| SenderProperties.PhaseNeverMovesBack | libsponge/tcp_helpers/tcp_state.cc:94-110 | along every run the phase never moves backwards |
| TcpConnecting.NothingOutstandingMeansDone | libsponge/tcp_connection.cc:73-76 | after filling the window, an ended stream with nothing in flight means FIN is sent and acknowledged |
| TcpConnecting.ShutdownIsSound | libsponge/tcp_connection.cc:111-126 | a call that stops the connection without error leaves the inbound stream ended, checkpoint = next = written + 2, and lingering sat out |
| TcpConnecting.PerformLive | libsponge/tcp_connection.cc:23-71 | every call keeps a connection without error at no more than eight consecutive retransmissions, and none clears an error |
| TcpConnecting.NewConnLive | libsponge/tcp_connection.cc:23-71 | a new connection satisfies that invariant, is active and lingering, and has sent nothing |
| TcpConnecting.TickGivesUpExactly | libsponge/tcp_connection.cc:54-60 | a tick breaks a healthy reachable connection iff it is itself the ninth consecutive retransmission |
| TcpConnecting.WriteToInvExactly | libsponge/tcp_connection.cc:47-51 | writing keeps the invariant iff FIN has not been sent or the stream takes nothing |
| ConnectionRuns.ClockOverRuns | libsponge/tcp_connection.cc:23-71 | in every reachable healthy state the doubling periods behind the current count of retransmissions are covered by the time that passed |
| ConnectionRuns.GivingUpTakesTime | libsponge/tcp_connection.cc:54-64 | from any reachable state, giving up takes 511 initial timeouts less what the clock showed |
| ConnectionRuns.NeverGivesUpEarly | libsponge/tcp_connection.cc:54-64 | a connection is not broken by its own timer before 511 initial timeouts have passed since its creation |
| LateWrites.WriteAddsNothingExactly | libsponge/byte_stream.cc:12-19 | a write adds nothing iff it is empty or there is no room; having ended plays no part |
| LateWrites.WriteInvExactly | libsponge/tcp_sender.cc:41-66 | a write keeps the sender's invariant iff FIN has not been sent or the write adds nothing |
| LateWrites.NothingAfterFin | libsponge/tcp_sender.cc:41-66 | once FIN is sent no run sends another byte, whatever is written, acknowledged or waited for |
| LateWrites.SendsEventually | libsponge/tcp_sender.cc:23-108 | until FIN is sent, any given byte of the stream is sent by some run that acknowledges only what was sent and never overruns the window |
| LateWrites.LateBytesSentExactly | libsponge/tcp_sender.cc:23-67 | bytes written now, before or after ending, can be sent by such a run iff FIN has not been sent, and otherwise by no run at all |
| LateWrites.LateByteNeverSent | libsponge/byte_stream.cc:12-19 | concrete failure: a byte written after FIN is accepted and no run sends it |
| TcpConnecting.SegmentIsAnswered | libsponge/tcp_connection.cc:31-43 | a segment occupying sequence space is answered in the same call, with the current acknowledgment and window |
| ConnectionSteps.EmptyAnswerExactly | libsponge/tcp_connection.cc:36-42 | an empty acknowledgment goes out iff the segment carries payload or FIN, or SYN after ours was sent |
| ConnectionSteps.SegmentTakenIn | libsponge/tcp_connection.cc:34-42 | the receiver takes the segment in; the sender takes number and window iff the segment acknowledges |
| ConnectionSteps.SendSegmentsStopsExactly | libsponge/tcp_connection.cc:73-126 | after sending a connection is inactive iff it was or both directions are complete and lingering is over; lingering is given up iff the peer finished first |
| ConnectionSteps.ActiveExactly | libsponge/tcp_connection.cc:23-126 | for every call, exactly when the connection is active afterwards |
| ConnectionSteps.LingerEnds | libsponge/tcp_connection.cc:54-64 | with both directions complete, the tick that makes ten timeouts of silence stops the connection |
| ConnectionSteps.ResetStops | libsponge/tcp_connection.cc:26-29 | a reset stops the connection, marks both streams, sends nothing and changes nothing else |
| ConnectionSteps.EarlyAckIgnored | libsponge/tcp_connection.cc:31-32 | before SYN is sent a segment that acknowledges is ignored |
| ConnectionSteps.TickResends | libsponge/tcp_connection.cc:54-64 | when the timer runs out the lowest outstanding segment is on the wire in the same tick, stamped; it resets only if the connection gives up |
| ConnectionSteps.ConnectSendsSyn | libsponge/tcp_connection.cc:71-94 | opening sends exactly SYN at the initial number with the window, without acknowledgment |
| ConnectionSteps.ApplicationExactly | libsponge/tcp_connection.cc:47-69 | writing appends what fits to the outbound stream, ending marks its end, and what the window allows is sent at once |
| ConnectionSteps.ResetsExactly | libsponge/tcp_connection.cc:78-92 | only the last segment of an abort resets |
| TcpConnecting.UncleanShutdownResets | libsponge/tcp_connection.cc:96-109 | giving up sends a reset last, marks both streams and deactivates |
| TcpConnections.TCPConnection.constructor | libsponge/tcp_connection.hh:14-34 | a new connection is active, lingering, with nothing sent |
| TcpConnections.TCPConnection.Drain | libsponge/tcp_connection.cc:78-92 | every queued segment goes out once, in order, stamped; only the last can carry the reset |
| TcpConnections.TCPConnection.SendSegments | libsponge/tcp_connection.cc:73-94 | fills the window, flushes the queue, then decides on shutdown |
| TcpConnections.TCPConnection.CleanShutdown | libsponge/tcp_connection.cc:111-126 | decides lingering and stopping from exactly the four tests |
| TcpConnections.TCPConnection.UncleanShutdown | libsponge/tcp_connection.cc:102-109 | kills, makes sure something is queued, and flushes with a reset |
| TcpConnections.TCPConnection.SegmentReceived | libsponge/tcp_connection.cc:23-43 | reset, dropped, or absorbed by both halves and answered; keeps the invariant |
| TcpConnections.TCPConnection.Write | libsponge/tcp_connection.cc:47-51 | returns what the stream accepted and sends what the window allows |
| TcpConnections.TCPConnection.Tick | libsponge/tcp_connection.cc:54-64 | time passes for the sender, the abort is decided, and segments are flushed once SYN was sent |
| TcpConnections.TCPConnection.EndInputStream | libsponge/tcp_connection.cc:66-69 | ends the outbound stream and sends what that allows |
| TcpConnections.TCPConnection.Connect | libsponge/tcp_connection.cc:71 | sends SYN |
| TwoParty.FiledAtItsIndex | libsponge/tcp_receiver.cc:23-25 | a genuine segment is filed at the index it was cut from |
| TwoParty.DeliverSafe | libsponge/tcp_receiver.cc:10-26 | delivering any genuine segment, in any order and number, leaves only sent bytes at the receiver |
| TwoParty.AckIsExact | libsponge/tcp_receiver.cc:28-36 | the acknowledgment is SYN plus assembled bytes plus FIN exactly once the stream is complete, and never exceeds what was sent |
| TwoParty.UnguardedFinOverAcks | libsponge/tcp_receiver.cc:19-35 | any genuine FIN that fails the guard is taken for received while bytes are missing, and the first missing byte is acknowledged iff nothing is pending |
| TwoParty.OverAcksExactly | libsponge/tcp_receiver.cc:10-36 | for every receiver and segment, a missing byte is acknowledged afterwards iff the connection is open, FIN was seen or comes, what is known and brought has no gap, and some written byte is neither |
| TwoParty.GuardKeepsAcksHonest | libsponge/tcp_receiver.cc:10-36 | a guarded delivery never makes a truthful receiver acknowledge a missing byte |
| TwoParty.MisledReceiverOverAcks | libsponge/tcp_receiver.cc:19-35 | concrete failure: a receiver misled by an earlier FIN acknowledges a missing byte on an ordinary segment |
| TwoParty.FinGuardIsExact | libsponge/tcp_receiver.cc:19-25 | the receiver's end of stream stays truthful iff the delivered FIN meets the guard |
| TwoParty.ReceiverSummaryExact | libsponge/tcp_helpers/tcp_state.cc:82-92 | FIN_RECV is reported exactly when FIN has come and every byte the peer wrote is assembled |
| TwoParty.AckNoLoss | libsponge/tcp_sender.cc:71-94 | no acknowledgment on the wire moves the checkpoint past what is assembled |
| TwoParty.ForgottenIsAssembled | libsponge/tcp_sender.cc:86-94 | a segment leaves the sender's memory only after its payload is assembled, and its FIN only after the stream ended |
| TwoParty.NoByteLost | libsponge/tcp_sender.cc:71-94 | each byte is assembled, outstanding, or still buffered at the sender |
| FlowControl.FlowGivesGuard | libsponge/tcp_sender.cc:38-62 | with flow control in force a FIN always falls inside the receiver's window |
| FlowControl.DeliverEdge | libsponge/tcp_receiver.cc:28-41 | a delivery never moves the right edge of the window back |
| FlowControl.AckFlow | libsponge/tcp_sender.cc:71-84 | taking acknowledgments in order keeps the outstanding numbers within the window |
| TcpLink.NewLink | libsponge/tcp_sender.hh:27-80 | a fresh sender and receiver satisfy every two-party invariant |
| TcpLink.StepHolds | libsponge/tcp_sender.cc:23-161 | each step of either side or of the network keeps the invariants its discipline promises |
| TcpLink.AckAndEdgeNeverRecede | libsponge/tcp_receiver.cc:28-41 | acknowledgment and right edge never move back along a run |
| TcpLink.EndToEndSafety | libsponge/tcp_receiver.cc:10-26 | what is delivered is a prefix of what was written, over any network |
| TcpLink.NothingLostOverRuns | libsponge/tcp_sender.cc:71-94 | on guarded runs no byte is lost, the input ends exactly at the end, and the acknowledgment is exact |
| TcpLink.WindowNeverOverrun | libsponge/tcp_sender.cc:38-39 | on ordered runs the window subtraction never wraps and nothing but a one-number probe passes the right edge |
| OutsideFin.OutsideFinAcksAMissingByte | libsponge/tcp_receiver.cc:19-34 | concrete run in which a FIN beyond the window makes the receiver acknowledge a byte it dropped |
| OvertakingFin.OvertakingFinLosesAByte | libsponge/tcp_receiver.cc:19-34 | concrete run in which a bare FIN overtakes a byte, the byte is acknowledged, forgotten and lost |
| TcpDuplex.StepHolds | libsponge/tcp_connection.cc:23-126 | every call at either endpoint keeps the invariants of both directions |
| TcpDuplex.BothDirectionsSafe | libsponge/tcp_connection.cc:23-94 | for two complete connections, what each application gets is a prefix of what the other wrote |
| TcpDuplex.BothWindowsRespected | libsponge/tcp_connection.cc:78-92 | with acknowledgments riding on segments taken in order, neither side overruns its window |
| TcpDuplex.CleanStopMeansAllDelivered | libsponge/tcp_connection.cc:111-126 | an endpoint that stops cleanly has delivered everything it wrote and received everything the peer wrote |
| Checksums.InternetChecksum.Add | libsponge/util/util.cc:89-98 | adds the data as big-endian words continuing a half-read word, modulo 2^32 |
| Checksums.InternetChecksum.Value | libsponge/util/util.cc:100-108 | the folding loop ends in the complement of the folded sum |
| Checksums.ChunksDoNotMatter | libsponge/util/util.cc:89-98 | feeding any chunks, odd lengths included, is feeding their concatenation |
| Checksums.FoldClosedForm | libsponge/util/util.cc:100-108 | folding gives the representative modulo 65535 that is zero only for zero |
| Checksums.VerifiesExactly | libsponge/util/util.cc:100-108 | a sum verifies to zero iff it is a positive multiple of 65535 |
| Checksums.ComplementVerifies | libsponge/util/util.cc:100-108 | adding the checksum to the sum makes it verify |
| Checksums.NoOverflow | libsponge/util/util.cc:89-98 | data that fits a datagram cannot overflow the accumulator |
| NetParsers.NetParser.ParseInt | libsponge/util/parser.cc:26-43 | a big-endian integer is taken from the front, or zero with a sticky error |
| NetParsers.NetParser.RemovePrefix | libsponge/util/parser.cc:45-51 | skips bytes or sets the error |
| NetParsers.UnparseInt | libsponge/util/parser.cc:53-60 | appends the big-endian bytes of the value |
| NetParsers.BigEndianRoundTrip | libsponge/util/parser.cc:26-60 | reading the bytes of a value gives the value |
| NetParsers.FieldsRoundTrip | libsponge/util/parser.cc:20-60 | fields written one after another are read back, leaving what follows |
| TcpCodec.ParseTcpHeader | libsponge/tcp_helpers/tcp_header.cc:17-48 | reads all fields, refuses a short data offset, skips options |
| TcpCodec.SerializeTcpHeader | libsponge/tcp_helpers/tcp_header.cc:51-78 | writes all fields and pads to the data offset, or throws |
| WireLayout.TcpHeaderLayout | libsponge/tcp_helpers/tcp_header.cc:51-78 | every field of a serialized header at its byte offset, zeros as options |
| WireLayout.TcpHeaderRead | libsponge/tcp_helpers/tcp_header.cc:17-48 | from any twenty bytes or more every field is read from its byte offset, with the verdict and the rest |
| WireLayout.TcpHeaderTooShort | libsponge/tcp_helpers/tcp_header.cc:17-48 | fewer than twenty bytes leave the parser in error |
| WireLayout.SegmentLayout | libsponge/tcp_helpers/tcp_segment.cc:30-45 | header at the front, payload behind the data offset |
| TcpCodec.ParseSegment | libsponge/tcp_helpers/tcp_segment.cc:12-23 | rejects a bad checksum, otherwise header and payload with the parser's error |
| TcpCodec.SerializeSegment | libsponge/tcp_helpers/tcp_segment.cc:30-45 | header with checksum over pseudo-header, header and payload, then the payload |
| TcpCodec.TcpHeaderRoundTrip | libsponge/tcp_helpers/tcp_header.cc:17-78 | a parsed header is the serialized one for every data offset from 5 to 15 |
| TcpCodec.SegmentRoundTrip | libsponge/tcp_helpers/tcp_segment.cc:12-45 | a serialized segment verifies to zero and parses back with its checksum filled in |
| Ipv4Codec.ParseIpHeader | libsponge/tcp_helpers/ipv4_header.cc:23-75 | all fields and every error case in order |
| Ipv4Codec.SerializeIpHeader | libsponge/tcp_helpers/ipv4_header.cc:78-110 | writes all fields and pads to the header length, or throws |
| Ipv4Codec.ParseDatagram | libsponge/tcp_helpers/ipv4_datagram.cc:11-21 | header and payload, checking only the payload length |
| Ipv4Codec.SerializeDatagram | libsponge/tcp_helpers/ipv4_datagram.cc:23-41 | checksummed header and payload, or throws on a wrong size |
| Ipv4Codec.IpHeaderVerifies | libsponge/tcp_helpers/ipv4_datagram.cc:28-39 | the header checksum verifies to zero |
| WireLayout.IpHeaderLayout | libsponge/tcp_helpers/ipv4_header.cc:78-110 | every field of a serialized header at its byte offset, zeros as options |
| WireLayout.IpHeaderRead | libsponge/tcp_helpers/ipv4_header.cc:31-47 | from any twenty bytes every field is read from its byte offset |
| WireLayout.IpVerdictExactly | libsponge/tcp_helpers/ipv4_header.cc:23-75 | the verdict on any bytes test by test, and where the parser then stands |
| WireLayout.DatagramVerdictExactly | libsponge/tcp_helpers/ipv4_datagram.cc:11-21 | which bytes pass as a datagram, and what its payload is |
| WireLayout.DatagramLayout | libsponge/tcp_helpers/ipv4_datagram.cc:23-41 | header with its checksum at the front, payload behind the header length |
| WireLayout.PseudoSumIsSum | libsponge/tcp_helpers/ipv4_header.cc:115-131 | the contribution to the TCP checksum is the word sum of the pseudo-header |
| WireLayout.SumOfWords | libsponge/util/util.cc:89-98 | sums go by 16-bit words, high byte first, a last odd byte counting as the high one |
| Ipv4Codec.DatagramRoundTrip | libsponge/tcp_helpers/ipv4_datagram.cc:11-41 | a serialized datagram parses back with its checksum filled in |
| TcpOverIp.TCPOverIPv4Adapter.WrapTcpInIp | libsponge/tcp_helpers/tcp_over_ip.cc:75-90 | sets ports, addresses and 16-bit length and encloses the checksummed segment |
| TcpOverIp.TCPOverIPv4Adapter.UnwrapTcpInIp | libsponge/tcp_helpers/tcp_over_ip.cc:26-71 | passes exactly the connection's segments; a listening adapter locks on to the first SYN |
| TcpOverIp.EncapsulationRoundTrip | libsponge/tcp_helpers/tcp_over_ip.cc:26-90 | wrap, serialize, parse and unwrap at the peer returns the same segment, ports and checksum filled in |
| TcpOverIp.WrapExactly | libsponge/tcp_helpers/tcp_over_ip.cc:75-90 | every field of the outer header: addresses from here to the peer, protocol 6, the length of the whole |
| TcpOverIp.ChecksumsVerify | libsponge/tcp_helpers/tcp_over_ip.cc:75-90 | both checksums on the wire verify to zero |
| TcpOverIp.AcceptedIsOurs | libsponge/tcp_helpers/tcp_over_ip.cc:26-71 | whatever gets through has a verifying checksum and the configured ports and addresses, and the adapter ends up talking to its sender; whatever does not changes nothing |
| NetworkInterfaces.NetworkInterface.SendDatagram | libsponge/network_interface.cc:32-53 | sends through a known mapping, otherwise queues and asks when due; throws iff the datagram cannot be serialized, the request being sent all the same |
| NetworkInterfaces.NetworkInterface.RecvFrame | libsponge/network_interface.cc:56-82 | learns from ARP, replies, flushes the queue; passes valid datagrams up |
| NetworkInterfaces.NetworkInterface.SendNotSentDatagrams | libsponge/network_interface.cc:145-153 | flushes the queue in order; the request it erases exists |
| NetworkInterfaces.NetworkInterface.Tick | libsponge/network_interface.cc:85-94 | removes exactly the mappings older than 30000 ms |
| NetworkInterfaces.StepInv | libsponge/network_interface.cc:32-94 | requested and queued hops coincide, are disjoint from mapped ones, and mappings are at most 30000 ms old |
| NetworkInterfaces.FramesOfStep | libsponge/network_interface.cc:32-153 | a step emits at most one ARP frame, then one hop's payloads, each in a frame from this interface to the address the hop is mapped to, at most 30000 ms old |
| NetworkInterfaces.SendToKnown | libsponge/network_interface.cc:36-37 | a datagram for a known hop goes out in one frame to the mapped address, or nowhere if it cannot be serialized |
| NetworkInterfaces.SendToUnknown | libsponge/network_interface.cc:39-52 | the whole effect of sending to an unknown hop, with the content of the broadcast request |
| NetworkInterfaces.LearnedExactly | libsponge/network_interface.cc:56-74 | an ARP message maps its sender's addresses, is answered if it asks for this interface, and flushes what waited, frame by frame |
| NetworkInterfaces.OtherFrames | libsponge/network_interface.cc:56-82 | all other frames change nothing; exactly valid datagrams addressed here are passed up |
| NetworkInterfaces.AgedExactly | libsponge/network_interface.cc:85-94 | exactly the mappings older than 30000 ms are forgotten, the others kept |
| NetworkInterfaces.FramesOfRun | libsponge/network_interface.cc:32-153 | after any run the outbound queue holds the ARP and data frames of its steps, in order, all with this interface as their source |
| NetworkInterfaces.EachDatagramOnceInOrder | libsponge/network_interface.cc:32-153 | per hop, emitted followed by queued is exactly what was submitted, over every run |
| NetworkInterfaces.FirstRequestKept | libsponge/network_interface.cc:43-48 | over every run without an answer the hop stays unresolved and the time of its first request stays the same |
| NetworkInterfaces.SecondRequestExactly | libsponge/network_interface.cc:43-48 | after any run without an answer a send repeats the request iff more than five seconds have passed since the first one |
| NetworkInterfaces.RequestsAreLateSends | libsponge/network_interface.cc:43-48 | over such a run the requests sent are exactly the sends that come after those five seconds |
| NetworkInterfaces.WaitingPeriod | libsponge/network_interface.cc:43-48 | one waiting period: the first send asks, none does in the first five seconds, every one does after them |
| NetworkInterfaces.RequestsPileUp | libsponge/network_interface.cc:43-48 | concrete failure: two requests in the same millisecond |
| Routers.MaskTestIsAgreement | libsponge/router.cc:47-48 | the mask test is agreement on the high bits for canonical prefixes and never holds for others |
| Routers.Router.FindRoute | libsponge/router.cc:41-55 | the loop computes the last of the longest matching routes |
| Routers.BestIsLongestMatch | libsponge/router.cc:46-55 | that route matches, none longer matches, and ties go to the one added last |
| Routers.LongestMatchIsUnique | libsponge/router.cc:46-55 | this determines the choice |
| Routers.Router.RouteFront | libsponge/router.cc:33-64 | on the front of a queue: time to live reduced in place, handed over as far as the interface exists; throws iff the interface is missing or the datagram cannot be serialized |
| Routers.Router.RouteAll | libsponge/router.cc:66-75 | throws iff some waiting datagram fails; hands over everything up to the first failure and leaves the queues from there on; keeps every interface's invariant |
| Routers.Router.AddInterface | libsponge/router.hh:65-68 | appends an interface with an empty queue and returns its number |
| Routers.FailsExactly | libsponge/tcp_helpers/ipv4_header.cc:78-85 | a parsed datagram makes forwarding throw iff it is to be sent and its interface is missing, its version is not 4 or its header length is below 5 |
| Routers.RoutingCompletesExactly | libsponge/router.cc:66-75 | routing completes iff every waiting datagram that is to be sent has an existing interface, version 4 and a header length of at least 5 |
| Routers.CompleteRouting | libsponge/router.cc:66-75 | when it completes every queue is empty and exactly the decisions were handed over, in order |
| Routers.AbortedRouting | libsponge/router.cc:66-75 | when it does not, everything before the first failing datagram was handed over, and that datagram with its time to live reduced and everything after it remain, in order |
| Routers.StrayVersionBlocksRouter | libsponge/tcp_helpers/ipv4_datagram.cc:11-21 | concrete failure: a bare header of version 6 is accepted, makes the call throw, and keeps what waits behind it from being routed in that call |
| Routers.BlocksUntilAged | libsponge/router.cc:33-75 | any failing datagram loses one unit of time to live per aborted call, blocks its successors until one is left, and is then dropped |
| Routers.DrainsInTheEnd | libsponge/router.cc:66-75 | calling route more often than the waiting times to live add up to drains every queue |
| Routers.Router.AddRoute | libsponge/router.cc:25-30 | appends the route, whether or not its interface exists |
| Routers.Router.RecvFrame | libsponge/router.hh:30-35 | a datagram received at a port waits there, in order |
| Routers.DecidedExactly | libsponge/router.cc:33-64 | dropped iff the time to live is at most one or nothing matches; otherwise handed over once with it reduced by one |
| Routers.EachInterfaceGetsItsOwn | libsponge/router.cc:60-75 | every interface gets exactly the datagrams handed to it, in routing order |
| Routers.HandoversAddUp | libsponge/router.cc:66-75 | nothing is handed over twice or lost between interfaces |
| Routers.RoutedDatagramsConserved | libsponge/router.cc:60-75 | at every interface and next hop, what was queued and handed over is what is emitted and queued afterwards, in order |

## Left out

- Sockets, file descriptors, TUN/TAP devices, the event loop and the threaded socket: system calls; only the calls they make into the stack are modelled.
- `Address` and name resolution: addresses are 32-bit numbers with a port.
- `Buffer` and `BufferList`: modelled as byte sequences, so sharing and reference counts are not captured.
- ARP and Ethernet header codecs: ARP messages and frames are values; they repeat the parser pattern already covered.
- The TCP-over-UDP adapter, the lossy adapter, the printing functions and the named states of `TCPState`: display and alternative transports around the same core.
- The destructor of `TCPConnection`: it performs the unclean shutdown that is modelled.
- Eventual delivery: it needs fairness assumptions about the network and the scheduler.
- 64-bit overflow of sequence numbers, clocks and the retransmission counter: these are unbounded here, as they are out of reach in practice.
- ByteStreams.ByteStream.constructor: asks for a capacity below 2^32, since the position in the buffer is a 32-bit counter and a larger buffer could not be filled.
- ByteStreams.ByteStream.PopOutput: asks for a length below 2^32, since beyond it the loop variable is truncated and the index out of range.
- TcpSenders.TCPSender.constructor: asks for a capacity below 2^32, as the byte stream does.
- TcpReceivers.TCPReceiver.SegmentReceived: asks for a window edge below 2^32, as the reassembler does.
- TcpConnections.TCPConnection.constructor: asks for capacities below 2^32, as the byte stream does.
- TcpConnections.TCPConnection.SegmentReceived: asks for a window edge below 2^32, as the reassembler does.
- StreamReassemblers.StreamReassembler.PushSubstring: asks for a window edge below 2^32, the range of the stream's counters.
- Routers.Router.AddRoute: asks for a prefix length of at most 32, since otherwise the shift is undefined.
- Checksums.InternetChecksum.Add: sums that exceed 32 bits lose the end-around carry; the verification results are stated below that.
- SenderInvariant.TickInv: the doubling law is stated for up to 16 consecutive retransmissions, beyond which the 32-bit timeout wraps; a connection gives up at the ninth.
