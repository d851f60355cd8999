# A verified model of the minnow TCP/IP stack

This project models the networking core of the minnow stack in Dafny and proves what the code is for:
bytes written at one end of a connection come out at the other, in order and exactly once, over a network
that loses, duplicates and reorders messages; datagrams wait for address resolution without being duplicated
or reordered, and are lost only to the timeout; what is put on the wire is read back; and the blocking queue
of the demo server never loses a wakeup. `dafny verify dfyconfig.toml` checks everything.

A class of the source that updates its fields in place is a Dafny class with the same fields and operations,
except the blocking queue and the worker pool, whose threads are modelled as state machines over interleaved
critical sections. Beside a class stands a datatype, its value, with one function per operation; each method
is proved to do to the object what the function does to the value, and the properties over whole runs are
proved about the functions. The state machines of the connection and of address resolution range over those
functions.

| files | what they model |
|---|---|
| `Wrap32`, `ByteStream`, `Timer`, `TcpMessages` | 32-bit sequence numbers, the bounded stream, timers, the two messages |
| `Segments`, `Reassembler`, `ReassemblerRuns` | the ordered map of pending substrings, `insert`, and its meaning over runs |
| `TcpReceiver`, `TcpSender`, `TcpSenderRuns`, `TcpTimer` | the two halves of a connection, and a sender under arbitrary acknowledgments |
| `TcpSystem`, `TcpDelivery`, `TcpWindow` | the whole connection over a lossy network |
| `BoundedQueue`, `WorkerPool` | the blocking queue and the pool as interleaved critical sections |
| `ArpTable`, `NetworkInterface`, `ArpRuns`, `Router` | address resolution over time, longest-prefix match |
| `Checksum`, `Buffers`, `Ipv4`, `TcpSegment`, `TcpOverIp` | the internet checksum and the wire formats |

## Main results

* **End to end** (`TcpSystem.EndToEnd`): in every run, writes after `close` included, the receiver's output is
  a prefix of what was written; the sender's left edge is at or behind the receiver's acknowledgment position,
  which is at or behind the next sequence number; acknowledged, outstanding and buffered payloads make up
  everything written; a FIN sent with nothing in flight means the receiver has closed. What it then holds is
  everything written exactly if nothing was accepted after the FIN went out (`TcpSystem.CleanCloseExact`).
* **Delivery and progress** (`TcpDeliveries.HeldExactly`, `RoundTripAdvances`): what has reached the receiver is
  exactly the indices brought while they lay in its window; and from every reachable state with something
  outstanding and room for the oldest segment, delivering that segment and the answer moves the left edge on.
* **Timer** (`TcpTimers.TimerExact`, `TickSendsExactly`): over every run of a sender, what the timer shows and when a
  tick resends, told from the calls and the segments alone.
* **Reassembly** (`ReassemblerRuns.RunExact`, `PendingIsMaximalRuns`, `OrderIrrelevant`): the output is the
  stream up to the first index never accepted in-window, and the pending map holds exactly the maximal runs of
  the other accepted indices; without reads output and map do not depend on order, duplication or cutting.
* **Sending** (`TcpSenderRuns.SenderRunSound`, `TcpWindows.SentWithinReach`): what is outstanding tiles the
  numbers in flight with exact slices; no push goes beyond the sender's left edge plus the last window it was
  told, and as long as no message of the receiver is overtaken by a later acknowledgment everything sent stays
  within the receiver's own window, or is the one number that probes a closed one.
* **Acknowledgments** (`TcpSenderRuns.RemoveAckedAbsolute`, `AckedExactly`): the modular loop removes exactly
  the segments that end at or before the acknowledgment, for arbitrary acknowledgments.
* **Unwrap** (`Wrap32.UnwrapClosest`, `UnwrapWrapExact`): optimal on all of uint64, and exactly when it inverts wrap.
* **No lost wakeups** (`BoundedQueues.QueueRun`, `ItemsExactly`) and **exactly once** (`WorkerPools.ShutdownHandlesEverythingOnce`).
* **Address resolution** (`ArpRuns.FifoConservation`, `SentToLatestAddress`, `RequestsApart`, `KnownExactly`,
  `ReceivedExactly`).
* **Wire** (`TcpOverIp.Deliver`, `WrappedLayout`, `UnwrapExactly`): wrap, serialize, regroup into any non-empty
  chunks, parse, unwrap; and where every field lies, byte by byte.
* **Routing** (`Routers.Router.FindRoute` with `Routers.BestMatchMeaning`).

## Assumptions

* A delivered segment's absolute position is less than 2^31 from the receiver's checkpoint, and a delivered
  acknowledgment's from `next_seqno_`. `TcpSystem.ShortStreamsAreFresh` shows that streams shorter than
  2^31 - 2 bytes need no such assumption, `Wrap32.StaleNumberIsMisread` that longer ones do.
* The 64-bit stream positions do not wrap. Where the code relies on 64-bit wrap-around (`abs_seqno - 1`,
  `candidate + 2^32`, the in-flight subtraction, elapsed times) it is modelled explicitly.
* End-to-end runs are free of RST and stream errors; the operations model both.
* A tick of the network interface is at most 2^64 - 30000 ms; `ArpRuns.TickExact` shows that this is the
  exact bound and `ArpRuns.StaleAddressUsed` what happens beyond it.

Properties that are false of the code as it stands, with the exact condition under which they hold:

* A connection that closes cleanly delivers everything written exactly if no byte was accepted after the FIN
  went out: `Writer::push` does not check `closed_` (src/byte_stream.cc:5-16), and what it accepts then is never
  sent (`TcpSystem.CleanCloseExact`, `TcpSystem.LateWriteRun`, `TcpSenderRuns.LateWriteIsNeverSent`). A write
  after `close` and before the FIN is sent like any other.
* The sender stays within the receiver's window as long as the last window it took came with a message that no
  later acknowledgment had overtaken: its right edge then lies within the edge advertised, and otherwise beyond it
  (`TcpWindows.WindowTaken`, `PushWithinReach`). `TCPSender::receive` takes any window, an overtaken one included
  (src/tcp_sender.cc:86-87), and can then send too far (`TcpWindows.OvertakenWindowRun`).
* ARP requests with no mapping learned in between are 5000 ms apart unless the earlier one was the renewal on a
  timeout and the later one of `send_datagram`: a renewal drops the queue, and with it the memory of having asked, so
  `send_datagram` asks too soon exactly when the next hop is neither cached nor waited for and the last request was
  a renewal so recent (`ArpRuns.AsksTooSoonExactly`, `ArpRuns.RenewalForgets`).
* `BufferList::truncate` cuts the chunk that goes beyond `len` and then erases it (util/parser.cc:59-65), so it keeps
  the first `len` unread bytes exactly when no more than `len` are left, `len` is zero, or nothing was skipped and a
  chunk ends there (`Buffers.TruncateExact`, `Buffers.TruncateLosesChunk`). So a parsed datagram's payload is right
  exactly when nothing is left beyond the announced length, no payload is announced, or both the header and the
  announced payload end where a chunk does; and if the announced payload ends within the first chunk left, no chunk
  remains to dump, as for every padded datagram in one chunk (`Ipv4.ParseDatagram`, `Ipv4.PaddedChunkIsErased`).
* The announced length of a wrapped segment is right exactly for payloads up to 65515 bytes (`TcpOverIp.WrapUnwrap`).
* `shutdown` handles everything accepted exactly when there is at least one worker or the queue has no
  capacity (`WorkerPools.ShutdownHandlesEverythingOnce`, `WorkerPools.NoWorkersLoseItems`).

Where a comment and the code differ the model follows the code: src/tcp_sender.hh:32-33 says that `tick()`
builds empty FIN segments, but `tick` only ever resends the oldest outstanding segment (src/tcp_sender.cc:118-132).

## Model

| member | source | states |
|---|---|---|
| Wrap32.UnwrapCases | src/wrapping_integers.cc:17-36 | which of the three candidates is returned, with the checkpoint split into halves, overflow of the upper one included |
| Wrap32.WrapCounts | src/wrapping_integers.cc:5-8 | wrapped numbers count up from `zero`, one by one, and from the greatest back to 0 |
| Wrap32.UnwrapClosest | src/wrapping_integers.cc:10-37 | the result is a uint64 that wraps back, and no uint64 that does is strictly closer to the checkpoint |
| Wrap32.UnwrapWrap | src/wrapping_integers.cc:5-37 | unwrap inverts wrap within a distance below 2^31 |
| Wrap32.UnwrapWrapExact | src/wrapping_integers.cc:5-37 | exactly when unwrap inverts wrap: at 2^31 and beyond only for a number sharing the checkpoint's upper half |
| Wrap32.StaleNumberIsMisread | src/wrapping_integers.cc:10-37 | a number 2^32 behind is taken for a current one |
| ByteStreams.ByteStream.constructor | src/byte_stream.hh:17 | an empty open stream |
| ByteStreams.ByteStream.Push | src/byte_stream.cc:5-16 | appends the data cut to the available capacity, keeping the chain equal to the unread bytes |
| ByteStreams.PushMeaning | src/byte_stream.cc:5-16 | the front of the data is kept: all of it, or the stream is full |
| ByteStreams.ByteStream.Close | src/byte_stream.cc:18-21 | sets the closed flag and nothing else |
| ByteStreams.ByteStream.SetError | src/byte_stream.hh:24 | sets the error flag and nothing else |
| ByteStreams.ByteStream.AvailableCapacity | src/byte_stream.cc:28-31 | the room left below the capacity |
| ByteStreams.ByteStream.BytesBuffered | src/byte_stream.cc:69-72 | the number of unread bytes |
| ByteStreams.ByteStream.Peek | src/byte_stream.cc:38-44 | a prefix of the unread bytes, empty only if there are none |
| ByteStreams.ByteStream.Pop | src/byte_stream.cc:46-62 | drops up to `len` unread bytes |
| ByteStreams.PopMeaning | src/byte_stream.cc:46-62 | bytes leave from the front, as many as asked for or all there are |
| ByteStreams.ByteStream.DropFront | src/byte_stream.cc:51-61 | the segment-wise loop drops exactly the first `n` bytes and terminates |
| ByteStreams.Read | src/byte_stream_helpers.cc:7-20 | returns and drops the first bytes of the whole buffer; the exception is unreachable |
| Timers.Timer.constructor | src/timer.hh:12 | a stopped timer |
| Timers.Timer.Start | src/timer.hh:14-18 | runs from zero |
| Timers.Timer.Stop | src/timer.hh:19-23 | stops and clears |
| Timers.Timer.Tick | src/timer.hh:24-29 | elapsed time advances, in 64 bits, only while running |
| Timers.ExpiresExactly | src/timer.hh:14-32 | after a start, expired iff the ticks since add up to the timeout modulo 2^64; after a stop, never |
| Timers.RetransmissionTimer.constructor | src/timer.hh:57-59 | no backoff, stopped |
| Timers.RetransmissionTimer.Start | src/timer.hh:61 | restarts the clock, keeps the backoff |
| Timers.RetransmissionTimer.Stop | src/timer.hh:62 | stops the clock, keeps the backoff |
| Timers.RetransmissionTimer.Tick | src/timer.hh:63 | advances the clock, keeps the backoff |
| Timers.RetransmissionTimer.ResetBackoff | src/timer.hh:69-73 | initial timeout and count zero again |
| Timers.RetransmissionTimer.RecordRetransmission | src/timer.hh:78-82 | one more retransmission, the timeout doubled modulo 2^64 |
| Timers.BackoffKept | src/timer.hh:54-90 | every operation keeps timeout = initial · 2^count modulo 2^64 |
| Segments.FloorKey | src/reassembler.cc:35-37 | the greatest key not above the index, or none |
| Segments.CeilingKey | src/reassembler.cc:57 | the least key not below the index, or none |
| Segments.MergePredecessor | src/reassembler.cc:33-53 | after merging, what remains overlaid with the working segment is the accepted content; nothing remains to store when covered |
| Segments.AbsorbSuccessors | src/reassembler.cc:55-67 | the map is canonical again and holds the old content overlaid with the data |
| Segments.AcceptMeaning | src/reassembler.cc:33-67 | index by index which byte is held where old and new overlap |
| Segments.CanonicalUnique | src/reassembler.hh:40-42 | the canonical map is determined by the bytes it holds |
| Segments.KeysAreRunStarts | src/reassembler.hh:40-42 | the substrings are exactly the maximal runs of held indices |
| Reassembly.Reassembler.constructor | src/reassembler.hh:12 | nothing held |
| Reassembly.Reassembler.Insert | src/reassembler.cc:7-78 | equals accepting byte by byte in the window, draining byte by byte and closing at the announced end |
| Reassembly.Reassembler.ClipToWindow | src/reassembler.cc:16-31 | exactly the part of the data between the next byte and the end of the window |
| Reassembly.Reassembler.TakeIn | src/reassembler.cc:16-67 | clip, merge and absorb hold the accepted bytes, all inside the window |
| Reassembly.Reassembler.StoreClipped | src/reassembler.cc:33-67 | which byte wins where old and new overlap |
| Reassembly.Reassembler.Flush | src/reassembler.cc:69-73 | emits the whole front run without truncation; what stays lies strictly beyond the output |
| Reassembly.Reassembler.CountBytesPending | src/reassembler.cc:80-87 | the number of indices held; with the unread output it fits the capacity |
| Reassembly.DrainMeaning | src/reassembler.cc:69-73 | draining emits exactly the unbroken front run and keeps the rest |
| Reassembly.DrainRun | src/reassembler.cc:69-73 | draining a run at once equals draining it byte by byte |
| Reassembly.InsertValid | src/reassembler.cc:7-78 | storage bound: held indices stay strictly between output and window end; the output only grows |
| ReassemblerRuns.InsertExact | src/reassembler.cc:7-78 | one fragment keeps exactness |
| ReassemblerRuns.RunExact | src/reassembler.cc:7-78 | over any run of fragments and reads: output, held bytes, end and closing in terms of the accepted indices |
| ReassemblerRuns.PendingIsMaximalRuns | src/reassembler.cc:33-73 | after any run the pending substrings are exactly the maximal runs of accepted indices beyond the output, cut from the stream |
| ReassemblerRuns.AcceptedWithoutReads | src/reassembler.cc:16-31 | without reads the accepted indices are those brought below the capacity |
| ReassemblerRuns.OrderIrrelevant | src/reassembler.cc:7-78 | without reads the final state is independent of order, duplicates and cutting |
| ReassemblerRuns.PendingOrderIrrelevant | src/reassembler.cc:7-78 | and so is the pending map, substring by substring |
| TcpReceiving.TCPReceiver.constructor | src/tcp_receiver.hh:16 | no ISN yet |
| TcpReceiving.TCPReceiver.Receive | src/tcp_receiver.cc:7-29 | RST, pre-handshake drop, ISN, unwrapping and insertion at the stream index |
| TcpReceiving.ResetReceived | src/tcp_receiver.cc:9-13 | a reset puts the stream in error and closes it, and nothing else |
| TcpReceiving.ErrorStays | src/tcp_receiver.cc:36-38 | from then on every answer is a reset, whatever arrives or is read |
| TcpDeliveries.DroppedBeforeSyn | src/tcp_receiver.cc:15-18 | before the handshake anything but a SYN changes nothing |
| TcpDeliveries.DeliverExact | src/tcp_receiver.cc:15-28 | a fresh segment adds exactly its payload indices in the window, with the sender's bytes, and its end mark; nothing else changes |
| TcpDeliveries.HeldExactly | src/tcp_receiver.cc:7-29 | over every run: what has reached the receiver is exactly the indices brought while in the window |
| TcpReceiving.TCPReceiver.Send | src/tcp_receiver.cc:31-46 | the acknowledgment and window of the state |
| TcpReceiving.SendMeaning | src/tcp_receiver.cc:31-46 | reset iff the stream has an error, acknowledgment iff not and the SYN has come, window the room cut to 16 bits |
| TcpReceiving.SentPosition | src/tcp_receiver.cc:31-46 | unwrapped at the peer, ackno is the position wanted and ackno + window the window edge |
| TcpReceiving.ReceiveValid | src/tcp_receiver.cc:7-29 | output and acknowledgment position never move back |
| TcpReceiving.WindowEdgeNeverShrinks | src/tcp_receiver.cc:31-46 | over any run of arrivals and reads the right window edge never moves back |
| TcpSending.TCPSender.constructor | src/tcp_sender.hh:17-19 | a fresh sender with window one |
| TcpSystem.EmptyMessageIsSilent | src/tcp_sender.cc:8-11 | an empty message uses no sequence number, changes nothing at the receiver, and unwraps to the sender's next number |
| TcpSending.TCPSender.TakePayload | src/tcp_sender.cc:27-34 | the run-wise loop takes the first bytes of the whole buffer |
| TcpSending.TCPSender.BuildSegment | src/tcp_sender.cc:19-42 | SYN, payload and FIN of the next segment |
| TcpSending.TCPSender.SendSegment | src/tcp_sender.cc:13-59 | sends the next segment or nothing, with the whole new state |
| TcpSending.TCPSender.RecordTransmission | src/tcp_sender.cc:48-54 | counters, flags and queue after a first transmission |
| TcpSending.TCPSender.Push | src/tcp_sender.cc:61-73 | segments one after the other up to the right edge |
| TcpSending.TCPSender.Receive | src/tcp_sender.cc:75-116 | RST, window update, ignored and processed acknowledgments, timer |
| TcpTimers.TimerExact | src/tcp_sender.cc:55-132 | over every run of a fresh sender, resets included: retransmissions counted since an acknowledgment last removed a segment, timeout, and elapsed ticks since the clock last started |
| TcpTimers.TickSendsExactly | src/tcp_sender.cc:118-132 | a tick resends the oldest segment exactly if one is outstanding and those ticks reach the timeout |
| TcpSenderRuns.ResetReceived | src/tcp_sender.cc:77-83 | a reset drops everything outstanding, stops the timer, puts the stream in error, and nothing else |
| TcpSending.TCPSender.Tick | src/tcp_sender.cc:118-132 | retransmission on expiry with or without backoff |
| TcpSenderRuns.NextSegmentSlice | src/tcp_sender.cc:13-46 | a new segment is the exact next slice, within window and payload limit and as long as it can be; FIN iff closed, all taken and room left; empty only if SYN is out and the open input drained |
| TcpSenderRuns.TransmittedSound | src/tcp_sender.cc:48-54 | sending keeps the retransmission-queue invariant |
| TcpSenderRuns.PushSound | src/tcp_sender.cc:61-73 | what push sends tiles [old next, new next), nothing follows a FIN, and push stops only when nothing more can go out |
| TcpSenderRuns.PushRespectsWindow | src/tcp_sender.cc:61-73 | no segment beyond left edge + max(1, window), none empty, none above 1000 bytes |
| TcpSenderRuns.LateWriteIsNeverSent | src/tcp_sender.cc:61-132 | in every run from a sent FIN on, push sends nothing, ticks resend only what was outstanding, and no further byte is taken |
| TcpSenderRuns.RemoveAckedAbsolute | src/tcp_sender.cc:96-106 | the modular loop equals absolute processing: no underflow, the left edge moves to the end of the last segment removed |
| TcpSenderRuns.AckedExactly | src/tcp_sender.cc:97-106 | a segment is removed if and only if it ends at or before the acknowledgment |
| TcpSenderRuns.ReceiveSound | src/tcp_sender.cc:75-116 | any acknowledgment keeps the invariant and never moves the left edge back |
| TcpSenderRuns.SenderRunSound | src/tcp_sender.cc:13-132 | over any run, writes after close included: tiling by exact slices, at most 65535 in flight, edges never back, no push beyond the left edge plus the last window taken |
| TcpSenderRuns.TimerRun | src/tcp_sender.cc:108-132 | over any run, resets included: the timer runs iff something is outstanding; the timeout is initial · 2^count modulo 2^64 |
| TcpSenderRuns.ExpiryRetransmitsOldest | src/tcp_sender.cc:118-132 | expiry, and only expiry, resends the slice at the left edge and restarts the timer; count and timeout change, by one and twofold, unless the window is closed |
| TcpSenderRuns.NewSenderSound | src/tcp_sender.hh:17-19 | a fresh sender satisfies both invariants |
| TcpSystem.InsertHolding | src/tcp_receiver.cc:22-28 | a slice of what was sent keeps the receiver a prefix |
| TcpSystem.InsertNothing | src/tcp_receiver.cc:22-28 | a segment without sequence numbers changes nothing |
| TcpSystem.DeliverSound | src/tcp_receiver.cc:7-29 | delivering any fresh packet keeps the receiver's invariant |
| TcpSystem.AckBehindNext | src/tcp_receiver.cc:43-45 | the acknowledgment position never runs ahead of the next sequence number |
| TcpSystem.TilesPayload | src/tcp_sender.cc:54 | the payloads of a tiling are the stream between its ends |
| TcpSystem.RetransmissionSound | src/tcp_sender.cc:125 | a retransmission is the exact slice at the left edge |
| TcpSystem.StepKeeps | src/tcp_sender.cc:61-132 | every event of the system keeps the invariant |
| TcpSystem.RunInv | src/tcp_receiver.cc:7-46 | the invariant holds in every reachable state |
| TcpSystem.EndToEnd | src/tcp_receiver.cc:7-46 | prefix safety, ack safety, conservation and close over every run |
| TcpDeliveries.RunOnNetwork | src/tcp_sender.cc:48-54 | over every run everything outstanding has been sent |
| TcpDeliveries.RoundTripAdvances | src/tcp_receiver.cc:15-46 | from every reachable state with something outstanding and room for the oldest segment, delivering it and the answer is possible and moves the left edge behind it |
| TcpSystem.CleanCloseExact | src/byte_stream.cc:5-16 | over every run: at close the receiver holds everything written iff nothing was accepted after the FIN went out |
| TcpSystem.LateWriteRun | src/byte_stream.cc:5-16 | a run from the start in which a byte accepted after the FIN is lost |
| TcpSystem.EverySegmentIsAnExactSlice | src/tcp_sender.cc:13-59 | over every run: every first transmission and retransmission is the exact slice at its sequence number; the queue tiles what is in flight |
| TcpSystem.ShortStreamsAreFresh | src/wrapping_integers.cc:10-37 | below 2^31 - 2 bytes every message in the network may be delivered |
| TcpWindows.WindowTaken | src/tcp_sender.cc:86-116 | in every reachable state: the sender's right edge lies within the edge a message advertised iff no later acknowledgment had overtaken it |
| TcpWindows.FreshWithin | src/tcp_sender.cc:86-116 | over every run: while the last window taken is fresh, the sender's right edge is within the receiver's reach |
| TcpWindows.PushWithinReach | src/tcp_sender.cc:61-73 | a push after a fresh window goes no further than the receiver's window, or one probe |
| TcpWindows.SentWithinReach | src/tcp_sender.cc:61-116 | over every run without overtaken messages everything sent stays within the receiver's window, or is one probe |
| TcpWindows.OvertakenWindowRun | src/tcp_sender.cc:86-87 | a run from the start in which an overtaken window lets the sender go beyond the receiver's |
| BoundedQueues.PushSectionKeeps | demo/bounded_queue.hh:26-36 | one critical section of push keeps the wakeup invariant |
| BoundedQueues.PopSectionKeeps | demo/bounded_queue.hh:41-52 | one critical section of pop keeps the wakeup invariant |
| BoundedQueues.StepKeeps | demo/bounded_queue.hh:26-66 | so does every event, spurious wakeups and the three steps of close included |
| BoundedQueues.QueueRun | demo/bounded_queue.hh:26-66 | over every interleaving: capacity, FIFO order, no lost wakeup before close, no stranded sleeper after |
| BoundedQueues.PushOutcome | demo/bounded_queue.hh:26-36 | waits iff open and full, refuses iff closed, else adds at the end and wakes one consumer |
| BoundedQueues.PopOutcome | demo/bounded_queue.hh:41-52 | waits iff open and empty, returns nothing iff closed and drained, else takes the front and wakes one producer |
| BoundedQueues.ItemsExactly | demo/bounded_queue.hh:26-66 | over every interleaving: accepted are exactly the items pushed with room while open, popped the first of them, one per pop that found one |
| WorkerPools.StepKeeps | demo/worker_pool.hh:58-74 | every popped item is handled once or in the hands of one worker |
| WorkerPools.WorkerOutcome | demo/worker_pool.hh:58-74 | a worker returns iff the queue is closed and drained, sleeps iff open and empty, else handles the item it took |
| WorkerPools.RunInv | demo/worker_pool.hh:44-74 | this holds in every reachable state |
| WorkerPools.ShutdownHandlesEverythingOnce | demo/worker_pool.hh:47-56 | after shutdown every accepted item has been handled exactly once and the queue is empty |
| WorkerPools.NoWorkersLoseItems | demo/worker_pool.hh:28-35 | with no worker and room for an item, a run in which an accepted item is never handled |
| ArpTables.ARPTable.AddEntry | src/arp_table.cc:5-10 | the mapping is set and its life restarts |
| ArpTables.ARPTable.Lookup | src/arp_table.cc:12-23 | the address unless expired; an expired entry is evicted |
| ArpTables.LookupMeaning | src/arp_table.cc:12-23 | found iff present and short of the timeout, else the entry goes; other entries stay |
| ArpTables.ARPTable.Tick | src/arp_table.cc:25-35 | every entry ages and exactly the expired ones go |
| ArpTables.ARPMessageQueue.AddPending | src/arp_message_queue.cc:5-12 | appends to the queue of the next hop |
| ArpTables.ARPMessageQueue.PopPending | src/arp_message_queue.cc:14-23 | hands over the whole queue and forgets it |
| ArpTables.ARPMessageQueue.Tick | src/arp_message_queue.cc:31-52 | only heads age; an expired head takes its queue along and its next hop is notified once; other queues stay |
| NetworkInterfaces.NetworkInterface.SendDatagram | src/network_interface.cc:37-52 | frame at once if cached, else queue, with a request only for the first |
| NetworkInterfaces.NetworkInterface.Initialize | src/network_interface.cc:18-29 | registers the timeout callback |
| ArpRuns.RequestIsAnswered | src/network_interface.cc:106-139 | the owner of the address asked for, and no other, answers; with the answer both ends know each other and what waited goes out |
| NetworkInterfaces.NetworkInterface.RecvFrame | src/network_interface.cc:54-87 | filter, deliver, learn, reply and flush, in this order |
| ArpRuns.ReceivedExactly | src/network_interface.cc:54-65 | over every run: the datagrams delivered are exactly those of the IPv4 frames to this host or to broadcast, in order |
| ArpRuns.ForeignFrameIgnored | src/network_interface.cc:54-58 | a frame to another host changes nothing and is not answered |
| ArpRuns.AnsweredFromHere | src/network_interface.cc:89-139 | every frame sent on arrival names this host as its source; a reply names and goes to the asker |
| ArpRuns.SentFromHere | src/network_interface.cc:89-116 | so does every frame of send_datagram; a request goes to everyone and asks for the next hop |
| ArpRuns.RenewedFromHere | src/network_interface.cc:18-35 | and every frame of a tick, all of them requests |
| NetworkInterfaces.NetworkInterface.FlushPendingFor | src/network_interface.cc:130-139 | the whole queue goes out in order to the cached address, or stays |
| NetworkInterfaces.NetworkInterface.Tick | src/network_interface.cc:18-35 | table and queue age together; an initialized interface asks again, once for each next hop whose queue timed out |
| ArpRuns.AnswersRequests | src/network_interface.cc:77-79 | a reply is sent exactly to accepted requests for this host, to the asker, first |
| ArpRuns.Learned | src/network_interface.cc:69-82 | an accepted ARP message renews the entry and flushes the queue to the address learned |
| ArpRuns.NotLearned | src/network_interface.cc:54-87 | any other frame leaves the next hop's entry and queue alone |
| ArpRuns.RunInv | src/network_interface.cc:31-139 | timers, cache, queue and history agree in every reachable state |
| ArpRuns.FifoConservation | src/network_interface.cc:37-139 | never both cached and waiting; submitted = sent or dropped, in order, then waiting |
| ArpRuns.SentToLatestAddress | src/network_interface.cc:40-41 | every frame uses the latest address heard, less than 30000 ms of ticks old |
| ArpRuns.RequestsApart | src/arp_message_queue.cc:31-52 | two requests of whichever kind are 5000 ms of ticks apart or separated by a learned mapping, except a renewal followed by send_datagram |
| ArpRuns.DroppedOnTimeout | src/arp_message_queue.cc:38-46 | over every run: datagrams are dropped 5000 ms or more after an unanswered request, and none waits so long |
| ArpRuns.KnownExactly | src/network_interface.cc:37-52 | over every run: an address is known exactly for 30000 ms after the latest ARP message, datagrams wait exactly for 5000 ms after the latest unanswered request |
| ArpRuns.AsksTooSoonExactly | src/network_interface.cc:37-52 | in every reachable state, exactly when send_datagram asks less than 5000 ms after the last request |
| ArpRuns.RenewalForgets | src/network_interface.cc:18-52 | a run in which a renewal and a request go out in the same millisecond |
| ArpRuns.TickExact | src/timer.hh:24-32 | the ticks that no live entry's clock wraps on are exactly those up to 2^64 - 30000 ms |
| ArpRuns.StaleAddressUsed | src/timer.hh:24-32 | with a larger tick, a run in which a frame goes to an address heard 2^64 ms ago |
| AddressBits.MaskedEqual | src/router.cc:28-29 | comparing under the mask is comparing the top bits, for every length 0..32 |
| AddressBits.TopMeaning | src/router.cc:28-29 | comparing the top bits as a number is comparing them one by one |
| AddressBits.SameUnderMask | src/router.cc:28-29 | the test of the code holds iff the first `length` bits agree one by one |
| Routers.Router.UpperBound | src/router.cc:19-20 | the insertion point after all routes at least as long |
| Routers.Router.AddRoute | src/router.cc:8-22 | the table stays sorted and its first match stays the best of all routes added; longer than 32 is ignored |
| Routers.Router.FindRoute | src/router.cc:24-34 | the best match of all routes ever added |
| Routers.MatchesMeaning | src/router.cc:27-31 | a route matches iff the first bits of the destination are those of its prefix, one by one |
| Routers.BestMatchMeaning | src/router.cc:16-34 | best = longest route covering the destination bit by bit, the earliest added among equals; none iff no route covers it |
| Routers.InsertBest | src/router.cc:16-21 | inserting after the routes at least as long keeps first match = best match |
| Checksums.SumConcat | util/checksum.hh:15-25 | the sum is independent of chunk boundaries, odd ones included |
| Checksums.SumFits | util/checksum.hh:15-25 | no 32-bit overflow up to 65535 bytes above a pseudo-header seed |
| Checksums.FoldedCongruent | util/checksum.hh:27-36 | the folded value is congruent modulo 65535 and zero only for zero |
| Checksums.FoldStep | util/checksum.hh:31-33 | one folding step keeps the value modulo 65535 |
| Checksums.StampedIsZero | util/checksum.hh:27-36 | adding the computed checksum never wraps and makes verification yield zero, for every 32-bit sum |
| Checksums.InternetChecksum.Add | util/checksum.hh:15-25 | the byte loop adds the word sum modulo 2^32 and tracks the parity |
| Checksums.InternetChecksum.AddAll | util/checksum.hh:38-43 | any chunking adds the same sum modulo 2^32 |
| Checksums.InternetChecksum.Value | util/checksum.hh:27-36 | folding terminates in the one's complement of the residue |
| Checksums.WordSum | util/checksum.hh:15-25 | two bytes, the higher first, count as one 16-bit word |
| Buffers.BufferList.constructor | util/parser.hh:24-34 | the contents are the chunks in order |
| Buffers.BufferList.Peek | util/parser.cc:8-14 | a prefix of the contents, empty only if the front chunk is |
| Buffers.BufferList.RemovePrefix | util/parser.cc:16-28 | drops up to `n` bytes across chunks, empty ones included, and ends at the matching position in the chain |
| Buffers.AtBoundary | util/parser.cc:16-28 | nothing of the front chunk is skipped exactly at chunk boundaries, and the boundaries behind stay boundaries |
| Buffers.BufferList.Truncate | util/parser.cc:30-68 | keeps exactly the whole chunks ending at or before `len`, skipped bytes counted, with the size set to `len` |
| Buffers.KeptBytes | util/parser.cc:42-65 | the chunks kept are a prefix of at most `len` bytes, exactly `len` iff a chunk ends there, and one more would go beyond |
| Buffers.TruncateExact | util/parser.cc:30-85 | when truncation keeps the first `len` unread bytes, and only then |
| Buffers.TruncateLosesChunk | util/parser.cc:59-65 | one chunk of two bytes cut to one leaves nothing to dump |
| Buffers.BufferList.DumpAll | util/parser.cc:70-85 | hands over exactly the unread bytes |
| Buffers.BufferList.Views | util/parser.cc:87-100 | shows exactly the unread bytes |
| Buffers.Concatenate | util/parser.cc:117-131 | the chunks in one string |
| Buffers.Parser.ConcatenateAllRemaining | util/parser.cc:117-131 | the unread bytes in one string |
| Buffers.Parser.Integer | util/parser.hh:72-92 | big-endian number of the next bytes, or the sticky error with input and variable left alone |
| Buffers.Serializer.Integer | util/parser.hh:103-112 | appends the big-endian bytes |
| Buffers.Serializer.Flush | util/parser.cc:133-139 | moves the buffered bytes to the output without changing the total |
| Buffers.Serializer.Buffer | util/parser.cc:141-155 | appends a buffer after what was buffered |
| Buffers.Serializer.Finish | util/parser.cc:164-168 | everything written, in non-empty chunks |
| Buffers.NumberEncoded | util/parser.hh:72-112 | an integer written is read back |
| Buffers.DecodeEncoded | util/parser.hh:72-112 | a record of integers written is read back, whatever follows |
| Buffers.ReadFields | util/ipv4_header.cc:12-30 | a series of integer reads: the fields that fit, the others left alone, failing iff the input is too short |
| Buffers.FetchAll | util/ipv4_header.cc:12-30 | with enough bytes every field is read |
| Buffers.FetchMeaning | util/ipv4_header.cc:12-30 | of a short input exactly the fields that end within it are read, each from its offset |
| Buffers.FieldAt | util/parser.hh:103-112 | each field of a record is found at its offset, most significant byte first |
| Buffers.ReadLong | util/parser.hh:72-92 | the number four bytes stand for, the first the most significant |
| Buffers.WriteFields | util/ipv4_header.cc:62-77 | a series of integer writes |
| Ipv4.Serialize | util/ipv4_header.cc:55-78 | appends the header's bytes |
| Ipv4.ComputeChecksum | util/ipv4_header.cc:105-115 | the checksum over the header with the field zero |
| Ipv4.Parse | util/ipv4_header.cc:10-52 | accepts iff long enough, version 4, length at least 5 and checksum right; skips options; fields and position also when it rejects |
| Ipv4.HeaderRoundTrip | util/ipv4_header.cc:10-78 | a stamped header without options is read back, whatever follows |
| Ipv4.WireLayout | util/ipv4_header.cc:55-78 | where each field of a header lies, byte by byte, flag bits included |
| Ipv4.ParsedLayout | util/ipv4_header.cc:10-52 | where each field of an accepted header is read from, and the payload behind it |
| Ipv4.ChecksumMeaning | util/ipv4_header.cc:46-51 | the checksum is right iff the ten words sum to zero and it is not 0xffff |
| Ipv4.PseudoMeaning | util/ipv4_header.cc:96-103 | the pseudo-header counts like its twelve bytes |
| Ipv4.PayloadLengthMeaning | util/ipv4_header.cc:80-83 | total length less header length, in 16 bits |
| Ipv4.ParseDatagram | util/ipv4_datagram.hh:16-21 | over any chunking: rejected, undefined, or the header with exactly when the payload is the announced one |
| Ipv4.PaddedChunkIsErased | util/parser.cc:42-67 | a padded datagram in one chunk, accepted or not, leaves no chunk to dump while the size stays positive |
| TcpSegments.Serialize | util/tcp_segment.cc:67-82 | appends the segment's bytes |
| TcpSegments.WireLayout | util/tcp_segment.cc:67-82 | where each field of a segment lies, byte by byte, flag bits included |
| TcpSegments.ComputeChecksum | util/tcp_segment.cc:84-93 | the checksum over pseudo-header, header with the field zero, and payload |
| TcpSegments.Parse | util/tcp_segment.cc:12-59 | depends on the bytes only: checksum, header, data offset, options skipped, payload |
| TcpSegments.ParsedLayout | util/tcp_segment.cc:12-59 | exactly which bytes are accepted, and where each field is read from |
| TcpSegments.StampSum | util/tcp_segment.cc:79-92 | stamping the field adds its value to the sum |
| TcpSegments.SegmentRoundTrip | util/tcp_segment.cc:12-93 | a stamped segment verifies and is read back up to the shared RST |
| TcpOverIp.TCPOverIPv4Adapter.WrapTcpInIp | util/tcp_over_ip.cc:76-96 | ports, addresses, the 16-bit length and both checksums |
| TcpOverIp.WrappedLayout | util/tcp_over_ip.cc:76-96 | the bytes of a wrapped message: addresses and ports of this end first, both checksums right |
| TcpOverIp.TCPOverIPv4Adapter.UnwrapTcpInIp | util/tcp_over_ip.cc:25-72 | every filter, and adoption of the addresses while listening |
| TcpOverIp.UnwrapExactly | util/tcp_over_ip.cc:25-72 | by the bytes, exactly which datagrams are taken, connected and listening; anything else changes nothing |
| TcpOverIp.WrapUnwrap | util/tcp_over_ip.cc:25-96 | the mirrored end unwraps the message, up to the shared RST; a listening end adopts a SYN's addresses; the announced length is right iff the payload has at most 65515 bytes |
| TcpOverIp.Deliver | util/tcp_over_ip.cc:25-96 | the same through any regrouping of the bytes into non-empty chunks |

## Left out

- Sockets, file descriptors, TUN/TAP, event loops, `TCPMinnowSocket` and the applications: system calls and callbacks.
- `TCPPeer` linger and `active()`: not needed for the one-directional results.
- RST and error runs end to end: they abort the stream by design; the operations model the flags.
- `Ref` ownership, move semantics and exceptions other than those named: memory mechanics.
- IPv4 options beyond being skipped, and the demo's message framing.
- `Router::route` and `Router::forward`: TTL and queue handling with only easy properties.
- Liveness over the lossy network and the retransmission give-up limit, which the sender does not enforce.
- BoundedQueues.QueueRun: the queue and the pool are modelled on values as interleaved critical sections, since threads cannot be Dafny methods.
- Reassembly.Reassembler.Insert: the window, and a substring that starts below its end, must lie within the 2^64 stream indices; beyond, the code's position arithmetic wraps.
- Reassembly.Reassembler.ClipToWindow: the same bound on stream indices.
- Reassembly.Reassembler.TakeIn: the same bound on stream indices.
- TcpReceiving.TCPReceiver.Receive: the same bound, for payloads that are inserted.
- Buffers.Parser.Integer: a byte is never read from an empty front chunk, which the code does not check; chains with empty chunks elsewhere are covered, also by the parsers built on it.
- Ipv4.ParseDatagram: taking the front of an empty list is the outcome `Undefined`, with nothing said about what follows.
- TcpOverIp.Deliver: payloads up to 65515 bytes, for which the announced length is right; longer ones are truncated on the way in.
- Buffers.ReadFields: the straight-line integer() calls of a header are written as a loop over the field widths.
