# PhotonOS kernel: verified models

Dafny models of the stateful core of the PhotonOS kernel, with proofs of what that core is for. Check everything with
`dafny verify dfyconfig.toml`.

Each component has a specification on values (step functions over a record of the component's state, with lemmas and
whole-run theorems) and, where the kernel changes fields, arrays or queues in place, a class whose loops and writes are
proved to be those steps.

| component | specification and theorems | imperative form |
|---|---|---|
| TCP send side | `SeqArith`, `Congestion`, `TcpQueue`, `TcpStream`, `TcpConn`, `TcpSteps`, `TcpTheorems`, `TcpClosing`, `TcpProgress`, `TcpTimers` | `TcpPcb` |
| TCP receive side, end to end | `TcpReceive`, `TcpDelivery`, `TcpEndToEnd` | `RxBuffer`, `TcpConnection` |
| TCP checksum | `Checksum` | `Checksum` |
| frames, copy-on-write fork | `Pmm`, `Cow`, `CowLedger`, `CowOverflow` | `Pmm`, `CowKernel` |
| four-level page tables, the clone on them | `PageTable`, `CowTables`, `CowClone`, `TableNeeds`, `CloneNeeds`, `CloneLoss` | `AddressSpace` |
| kernel heap | `HeapBlocks`, `HeapLinks`, `HeapRuns` | `Heap` |
| sector cache | `SectorCache`, `CacheLru`, `CacheLoss` | `Bcache` |
| FAT16 | `FatChain`, `FatVolume`, `FatContent` | `Fat16`, `FatEntry`, `FatFile` |
| scheduler | `Scheduler`, `TaskFates` | `TaskTable` |
| descriptors and pipes | `Descriptors`, `DescriptorRuns`, `DescriptorCalls`, `PipeLeaks`, `PipeRuns` | `FdTables`, `Pipe` |
| paths | `Paths` | `NodeTree` |

`Basics` holds what several of them share.

Critical sections are atomic steps: what runs under a lock or with interrupts off is one step, and what the kernel does
with the lock dropped (handing a packet to IPv4, the drain inside close) is split into several, so the TCP theorems range
over every interleaving of them. Clocks, memory exhaustion, device answers and the free slots of the deferred-packet list
are parameters.

## Main results

- TCP: over every interleaving of send, drain, input, timer, close and shutdown steps the byte stream is conserved, every
  packet on the wire is a cut of it at its own number, one FIN takes one number, congestion control stays in range, and
  after every run the next timeout sends the oldest unacknowledged bytes again; a receiver fed any reordered, duplicated
  or lossy selection of those packets reads a prefix of what was written, and all of it once the pieces come by in order.
- Memory: copy-on-write fork refines eager copying over every run in which no count wraps, with the exact condition and
  the run that breaks it, and every frame's count is accounted for over every run; mapping in the page-table tree is an update of a flat map at one page, and the clone of a whole
  tree gives the child every page if and only if as many frames are free as the parent's tree shows it to need; the
  heap tiles its range, keeps live payloads apart and intact over every run, and ends as one free block.
- Storage: the sector cache shows a plain disk's contents under device failures and keeps exactly the most recent
  sectors; FAT16 resizing conserves clusters and writing then reading, through the directory entry on disk, returns the
  bytes and changes nothing else, on a model that goes down to sector addresses and every FAT copy.
- Processes: a ready task waits at most one round, and what a signal does to it is decided exactly; reference counts are exact and close runs once; end of file on a pipe
  means that everything was delivered and no writer is left; canonical paths mean what the input meant
  if and only if no name was dropped.

## Where the code does not do what one would expect

Each of these is a theorem about the code as it is, with the exact condition where there is one.

- FIN_WAIT1 and LAST_ACK take any acknowledgement at or beyond SND.NXT for one of the FIN
  (`TcpTheorems.FinWait1Leaves`, `TcpClosing.LastAckLeaves`; runs: `FinWait1Skipped`, `LastAckSkipped`).
- A close that finds the connection moved to CLOSE_WAIT while it drained gives up, and no FIN is ever sent
  (`TcpClosing.FinishExactly`, `MuteForever`; run: `MuteReached`).
- CLOSE_WAIT and LAST_ACK do not look at acknowledgements, so nothing leaves the queue in them and a half-closed
  connection can send one buffer more at most (`TcpClosing.NeverTrimmed`, `HalfClosedLimit`).
- A shutdown that was draining when the connection was reset moves it from CLOSED to LAST_ACK and sends a FIN
  (`TcpClosing.ResetRevives`; run: `RevivedReached`).
- In FIN_WAIT1 an acknowledgement of all data but not of the FIN stops the timer, and the FIN is never sent again
  (`TcpClosing.TimerStops`, `FinNeverResent`; run: `StalledReached`).
- In ESTABLISHED any acknowledgement, however old, sets the send window to its own, because a window that differs counts
  as newer (`TcpProgress.WindowHonoured`, `StaleWindow`; input: `StaleReached`).
- After ten unanswered probes of a shut window the persist timer is turned off, and no tick sends anything any more
  (`TcpTimers.ProbeTheorem`, `ProbesStop`; run: `SilenceReached`).
- Frame counts wrap at 2^32 without a check, and teardown never lowers them, so enough forks break isolation
  (`CowLedger.LedgerTheorem`, `Pmm.ShareKeepsIff`, `Cow.ForkKeepsIff`; runs: `Pmm.ShareWraps`, `CowOverflow.Reaches`,
  `WrapBreaksIsolation`).
- A clone that cannot allocate one of the child's page tables goes on and leaves the page out
  (`CloneNeeds.CloneTheorem` counts the frames it takes; state: `CloneLoss.PageLost`).
- `heap_expand` compares a wrapped sum with the limit (`Heap.GuardExactly`; input: `Heap.GuardWraps`), so `kmalloc`
  hands out a block that runs past the heap's end for requests it cannot answer (`Heap.Allocator.Malloc`; input:
  `HugeAccepted`) and never returns for some near 2^64 (`NeverReturns`); it rounds one within 15 bytes of 2^64 to 0
  (`Align16Exactly`).
- A cache write that evicts a dirty sector ignores a failed write-back (`SectorCache.WriteExactly`; run:
  `CacheLoss.LossReached`).
- The FAT16 cluster rounding wraps for sizes near 2^32 and then asks for no cluster (`FatFile.RequiredExactly`; input:
  `RequiredWraps`).
- A FAT16 write that needs more clusters than are free takes every free one, writes nothing and leaves the directory
  entry as it was; a file that had no cluster then names none of them (`FatFile.WriteChain`, `ClustersUnnamed`).
- `sys_pipe` leaves a pipe behind, with that end counted for ever, when the description of one end cannot be allocated
  (`DescriptorRuns.EndsExactly`, `PipeLeaks.StrandedForever`; run: `LeakReached`).
- A signal other than five is not dropped when set to be ignored: SIGKILL ends the task and any other enters the marker
  as if it were a handler (`Scheduling.IgnoredExactly`; input: `IgnoredEntered`).
- `vfs_build_path` silently drops names beyond 32, and the path then leads elsewhere (`NodeTree.SameMeaning`; input:
  `TooDeep`).

## Model

| member | source | states |
|---|---|---|
| `SeqArith.ComparisonsExactly` | include/tcp.h:48-51 | For stream positions less than 2^32 apart, an if-and-only-if for each of the four signed-difference macros: when it agrees with the true order of the positions and when it does not. |
| `SeqArith.ComparisonsAgree` | include/tcp.h:48-51 | Within half the sequence space every macro is stream order, across any number of 32-bit wraps. |
| `SeqArith.SeqAtInjective` | include/tcp.h:52 | Positions less than 2^32 apart with equal sequence numbers are the same position. |
| `SeqArith.NewAckExactly` | src/kernel/tcp.c:2317-2331 | An arbitrary 32-bit acknowledgement passes the "new and not beyond SND.NXT" guards exactly when it names a position in (una, nxt]. |
| `Congestion.NextKeeps` | src/kernel/tcp.c:2333-2359 | Each acknowledgement, duplicate or timeout keeps the window and threshold bounds, "recovery iff three duplicates", the recovery window formula and the cost ledger of increases. |
| `Congestion.EventsKeep` | src/kernel/tcp.c:1790-1879 | The same after every sequence of congestion events from the initial control block. |
| `Congestion.SlowStart` | src/kernel/tcp.c:2336-2347 | In slow start n acknowledgements of a full segment or more open the window by n segments, and they bring it to the threshold if and only if n segments are at least the distance. |
| `Congestion.Avoidance` | src/kernel/tcp.c:2348-2359 | In congestion avoidance the window stands still while less than a window has been acknowledged, and the acknowledgement that completes it opens it by exactly one segment. |
| `TcpStream.StreamConserved` | src/kernel/tcp.c:216-219 | Acknowledged bytes, unacknowledged payloads and unsent payloads concatenate to the accepted bytes, the byte counters are the payload lengths, and the 32-bit flight size is the true one. |
| `TcpStream.CommitKeeps` | src/kernel/tcp.c:2716-2721 | Queueing a chunk keeps the stream invariant. |
| `TcpStream.TransmitKeeps` | src/kernel/tcp.c:2501-2610 | Sending a slice of, or the whole, head segment keeps the stream invariant: payload order, contiguity, counters, numbering. |
| `TcpStream.AcknowledgeKeeps` | src/kernel/tcp.c:2360-2402 | Confirming k positions, also in the middle of a segment or over the FIN, keeps the stream invariant. |
| `TcpStream.FinishKeeps` | src/kernel/tcp.c:335-344 | A FIN sent when nothing is unsent takes the number just after the last accepted byte and keeps the invariant. |
| `TcpStream.HeadIsCut` | src/kernel/tcp.c:349-396 | The oldest unacknowledged segment, also after a partial acknowledgement, carries exactly the stream bytes at its sequence number. |
| `TcpStream.TransmitIsCut` | src/kernel/tcp.c:2501-2646 | A first transmission carries exactly the stream bytes at SND.NXT. |
| `TcpConn.ConnMeans` | src/kernel/tcp.c:2310-2649 | What holds of any connection that satisfies the invariant and is not reset: conservation, capacity, numbering, and the number of every FIN on the wire. |
| `TcpConn.AckBytes` | src/kernel/tcp.c:2360-2402 | The bytes the trimming loop must remove for an acknowledgement of k positions, and that its guards cannot be fooled by wrap-around. |
| `TcpConn.RefinConnKeeps` | src/kernel/tcp.c:828-846 | A retransmitted FIN has the number the first one had. |
| `TcpSteps.NewAckMeans` | src/kernel/tcp.c:1800-1815 | In every state of the invariant the guards admit exactly the acknowledgements of positions in (una, nxt]. |
| `TcpSteps.DrainKeeps` | src/kernel/tcp.c:2475-2646 | One iteration of the drain loop, in any state, keeps the full connection invariant. |
| `TcpSteps.InputKeeps` | src/kernel/tcp.c:1694-2140 | tcp_input in every connected state keeps the full connection invariant, for any segment. |
| `TcpSteps.TickKeeps` | src/kernel/tcp.c:537-877 | The timers (retransmission with backoff, persist probes, FIN retransmission, TIME_WAIT) keep the invariant. |
| `TcpSteps.ApplyKeeps` | src/kernel/tcp.c:962-1173 | Every critical section (send, drain iteration, input, tick, the two halves of close and of shutdown) keeps the invariant. |
| `TcpSteps.RunKeeps` | src/kernel/tcp.c:2419-2737 | The invariant holds after every interleaving of every critical section. |
| `TcpTheorems.StreamTheorem` | src/kernel/tcp.c:2310-2412 | Over every run without reset: acknowledged ++ unacked ++ unsent is the accepted stream, both counters match, the queues fit 8192 bytes together, and the unacked queue is one contiguous run from SND.UNA to SND.NXT less a sent FIN, across wraps. |
| `TcpTheorems.StreamIsAccepted` | src/kernel/tcp.c:2665-2725 | Over every run from any state, whatever interferes between the critical sections of a send, the stream is what was there followed by exactly the accepted chunks, in order. |
| `TcpTheorems.WireTheorem` | src/kernel/tcp.c:349-396 | Over every run, each data packet put on the wire (first send, slice, timeout, fast or teardown retransmit) is a cut of the stream at its own number, at most MSS long. |
| `TcpTheorems.FirstSend` | src/kernel/tcp.c:2475-2646 | Each first send keeps the bytes in flight within min(snd_wnd, cwnd), the payload within MSS, and appends exactly the next stream bytes to the wire. |
| `TcpTheorems.DrainStops` | src/kernel/tcp.c:2475-2525 | With memory available the drain only stops when nothing is unsent or the effective window is full. |
| `TcpTheorems.DrainRests` | src/kernel/tcp.c:2475-2525 | The state in which such a drain leaves an open connection has nothing unsent or a full window. |
| `TcpTheorems.CongestionTheorem` | src/kernel/tcp.c:665-680 | Over every run: MSS <= cwnd <= 65535, 2*MSS <= ssthresh <= 65535, ca_bytes_acked < cwnd, recovery iff at least three duplicates, the ESTABLISHED recovery window formula, and k increases cost k full windows. |
| `TcpTheorems.StepFreezes` | src/kernel/tcp.c:962-1173 | Once a FIN is out no step accepts or first-sends a byte or moves SND.NXT; a reset is never undone. |
| `TcpTheorems.OneFin` | src/kernel/tcp.c:335-344 | After a FIN, through every later run without reset, nothing more is accepted or first sent and every FIN on the wire has the one number after the last accepted byte. |
| `TcpTheorems.FinWait1Leaves` | src/kernel/tcp.c:1998-2057 | Exactly when FIN_WAIT1 is left (acknowledgement at or beyond SND.NXT) and exactly when the FIN is really acknowledged (equal to SND.NXT): the two differ. |
| `TcpClosing.FinWait1Skipped` | src/kernel/tcp.c:1998-2057 | A reaching run: after a close, the acknowledgement one past SND.NXT moves FIN_WAIT1 to FIN_WAIT2 with the FIN unacknowledged. |
| `TcpClosing.LastAckLeaves` | src/kernel/tcp.c:2099-2112 | LAST_ACK is left if and only if the acknowledgement is one of the 2^31 numbers from SND.NXT on, and nothing is acknowledged by it. |
| `TcpClosing.LastAckSkipped` | src/kernel/tcp.c:2099-2112 | A reaching run: CLOSED with the FIN unacknowledged. |
| `TcpClosing.FinishExactly` | src/kernel/tcp.c:990-1060 | The second half of a close sends or leaves pending a FIN if and only if the state is still the one its first half saw. |
| `TcpClosing.GaveUpIsMute` | src/kernel/tcp.c:997-1000 | A close that finds the state moved leaves the write side shut with no FIN sent or pending and no thread to send one. |
| `TcpClosing.MuteStep` | src/kernel/tcp.c:962-1173 | Every critical section keeps that and puts no FIN on the wire. |
| `TcpClosing.MuteForever` | src/kernel/tcp.c:962-1173 | So no later run, whatever the calls, segments and timeouts, ever sends a FIN. |
| `TcpClosing.MuteReached` | src/kernel/tcp.c:990-1000 | A run that gets there: a send, a close, and the peer's FIN before the close has drained. |
| `TcpClosing.NeverTrimmed` | src/kernel/tcp.c:2091-2112 | Over every run that stays in CLOSE_WAIT and LAST_ACK, SND.UNA stands still and every unacknowledged segment stays queued, whatever the peer acknowledges. |
| `TcpClosing.HalfClosedLimit` | src/kernel/tcp.c:2091-2112 | So after the peer's FIN a connection accepts no more than its 8192-byte buffer holds beyond SND.UNA. |
| `TcpClosing.ResetRevives` | src/kernel/tcp.c:1133-1156 | A reset connection leaves CLOSED if and only if the second half of a shutdown runs with no FIN pending; it then enters LAST_ACK with a FIN on the wire and the timer armed. |
| `TcpClosing.RevivedReached` | src/kernel/tcp.c:1120-1156 | A run that gets there: a send, a shutdown, and a reset before the shutdown has drained. |
| `TcpClosing.TimerStops` | src/kernel/tcp.c:2393-2402 | In FIN_WAIT1 an acknowledgement short of the FIN stops the retransmission timer if and only if it confirms all the data; the FIN is then outstanding with no timer. |
| `TcpClosing.FinNeverResent` | src/kernel/tcp.c:767-849 | From there, over every run that stays in FIN_WAIT1, nothing is sent any more: the FIN is never repeated. |
| `TcpClosing.StalledReached` | src/kernel/tcp.c:2393-2402 | A run that gets there: a byte sent, a close, the acknowledgement of the byte alone. |
| `TcpProgress.TimeoutResends` | src/kernel/tcp.c:644-709 | A due timer of an open connection with data outstanding: given up if and only if it was the sixth time; otherwise the window collapses to one segment and the threshold to half the flight (the first time), the timer backs off, and the next packet on the wire is the stream from the first unacknowledged byte on. |
| `TcpProgress.ResetByPeer` | src/kernel/tcp.c:1694-1702 | A reset from the peer in any connected state leaves it CLOSED and reset, with empty queues and no timer, and sends nothing. |
| `TcpProgress.FastRetransmit` | src/kernel/tcp.c:1838-1879 | So it is at once on the third duplicate acknowledgement, with the recovery window and a fresh timer. |
| `TcpProgress.TeardownResends` | src/kernel/tcp.c:767-849 | In FIN_WAIT1 and LAST_ACK: the oldest data while there is any, then the FIN with the number it had, and CLOSED the sixth time. |
| `TcpTimers.RunWithin` | src/kernel/tcp.c:537-877 | Over every run whose steps happen by time t, an armed timer comes due by t + 1000. |
| `TcpTimers.ResendTheorem` | src/kernel/tcp.c:537-877 | So after every run a tick at t + 1000 or later, with a free slot, sends the oldest unacknowledged bytes again or closes the connection after five tries. |
| `TcpTimers.ShutWindowArms` | src/kernel/tcp.c:2475-2500 | A drain that meets a shut window starts the persist timer and sends nothing. |
| `TcpTimers.ProbeTheorem` | src/kernel/tcp.c:711-766 | After every run, while the window is shut and nothing is in flight, a tick at t + 1000 or later sends an empty segment numbered one before SND.NXT, ten times, and then turns the timer off. |
| `TcpTimers.ProbesStop` | src/kernel/tcp.c:756-760 | After that no number of ticks changes anything. |
| `TcpTimers.SilenceReached` | src/kernel/tcp.c:711-766 | One byte sent into a shut window and eleven ticks reach that state. |
| `TcpProgress.AckExactly` | src/kernel/tcp.c:2310-2402 | In ESTABLISHED and FIN_WAIT1 SND.UNA moves to the position an acknowledgement names if that lies in (una, nxt] and otherwise stays. |
| `TcpProgress.AckTimer` | src/kernel/tcp.c:2396-2412 | A new acknowledgement restarts the timer for what is left, or stops it if and only if nothing is. |
| `TcpProgress.RecoveryEnds` | src/kernel/tcp.c:1806-1815 | A new acknowledgement in recovery ends it with the window at the threshold. |
| `TcpProgress.WindowHonoured` | src/kernel/tcp.c:1882-1908 | Every acknowledgement in ESTABLISHED, whatever its age, makes its window the one the next drain uses; that drain sends as soon as it and the congestion window leave room. |
| `TcpProgress.StaleWindow` | src/kernel/tcp.c:1882-1908 | The window after an acknowledgement in ESTABLISHED is the one the update rule of RFC 793 gives if and only if the segment is newer by that rule or repeats the window there is. |
| `TcpProgress.StaleReached` | src/kernel/tcp.c:1886-1892 | An old acknowledgement with window 0 shuts the window of a fresh connection. |
| `TcpProgress.SendExactly` | src/kernel/tcp.c:2665-2725 | A chunk of at most a segment joins the stream if and only if the write side is open and what is unacknowledged leaves room for it in 8192 bytes. |
| `TcpProgress.SendTimer` | src/kernel/tcp.c:2590-2646 | A first transmission starts the timer if nothing was outstanding and otherwise leaves it alone. |
| `TcpProgress.CloseSendsFin` | src/kernel/tcp.c:973-1038 | A close with nothing unsent puts one FIN on the wire, numbered after the last byte, and enters FIN_WAIT1 or LAST_ACK. |
| `TcpProgress.ShutdownSendsFin` | src/kernel/tcp.c:1115-1164 | So does a shutdown of the write side. |
| `TcpProgress.CloseLeavesFin` | src/kernel/tcp.c:973-1038 | A close with data unsent, after any run in between that leaves the state as it was, sends the FIN if everything is sent and otherwise leaves it pending. |
| `TcpProgress.PendingFinSent` | src/kernel/tcp.c:2419-2462 | A pending FIN goes out with the first drain that finds nothing unsent. |
| `TcpProgress.ActiveClose` | src/kernel/tcp.c:1995-2140 | Close, acknowledgement, the peer FIN and the tick 200 ticks later lead through FIN_WAIT1, FIN_WAIT2 and TIME_WAIT to CLOSED with one FIN sent, and no tick before that does. |
| `TcpProgress.SimultaneousClose` | src/kernel/tcp.c:1995-2057 | In FIN_WAIT1 the FIN of the peer and then the acknowledgement of ours lead to TIME_WAIT. |
| `TcpProgress.FinAcked` | src/kernel/tcp.c:1995-2127 | An acknowledgement of everything including the FIN ends LAST_ACK in CLOSED and FIN_WAIT1 in TIME_WAIT or FIN_WAIT2, as the FIN of the peer has come or not, with everything confirmed and the timer stopped. |
| `TcpProgress.TimeWaitRestarts` | src/kernel/tcp.c:2118-2140 | A FIN that comes again in TIME_WAIT starts the 200 ticks over. |
| `TcpProgress.PassiveClose` | src/kernel/tcp.c:1979-2110 | The peer FIN, our close and its acknowledgement lead through CLOSE_WAIT and LAST_ACK to CLOSED with one FIN sent. |
| `TcpPcb.HeadTests` | src/kernel/tcp.c:2366-2374 | On the head segment the signed comparisons of the trimming loop are comparisons of stream positions. |
| `TcpPcb.TrimAcked` | src/kernel/tcp.c:2360-2402 | The loop that frees and shortens confirmed segments removes exactly the confirmed bytes from the front of the queue. |
| `TcpPcb.Pcb.constructor` | src/kernel/tcp.c:1718-1730 | A connection that has just reached ESTABLISHED satisfies the invariant. |
| `TcpPcb.Pcb.SendRoom` | src/kernel/tcp.c:2666-2686 | The longest chunk the second critical section would accept if nothing intervened, 0 if it would accept none. |
| `TcpPcb.Pcb.SendCommit` | src/kernel/tcp.c:2699-2722 | A chunk is queued iff the connection may still send and the space is still there; the accepted stream grows by exactly it. |
| `TcpPcb.Pcb.Accept` | src/kernel/tcp.c:2665-2725 | The accepting loop takes a prefix of the buffer, as much as fits unless memory runs out. |
| `TcpPcb.Pcb.Send` | src/kernel/tcp.c:2651-2737 | The return value, the accepted prefix and the new stream of a whole tcp_send. |
| `TcpPcb.Pcb.DrainBegin` | src/kernel/tcp.c:2425-2430 | Only one drain at a time. |
| `TcpPcb.Pcb.MoveHead` | src/kernel/tcp.c:2501-2610 | Moving a slice or the whole head segment between queues, payload included. |
| `TcpPcb.Pcb.TransmitHead` | src/kernel/tcp.c:2501-2646 | One data packet of a drain, with timer start. |
| `TcpPcb.Pcb.EmitFin` | src/kernel/tcp.c:2433-2462 | The FIN is built, numbered and timed. |
| `TcpPcb.Pcb.DrainIteration` | src/kernel/tcp.c:2432-2646 | One iteration of the drain loop is the step the theorems are about. |
| `TcpPcb.Pcb.Drain` | src/kernel/tcp.c:2419-2649 | A whole drain terminates, changes no accepted byte, and unless memory ran out leaves nothing unsent or a full window. |
| `TcpPcb.Pcb.AckReceived` | src/kernel/tcp.c:2310-2412 | SND.UNA, queue, counters, window growth and timers after an acknowledgement, for every 32-bit value. |
| `TcpPcb.Pcb.Resend` | src/kernel/tcp.c:349-396 | The oldest segment goes out again unchanged. |
| `TcpPcb.Pcb.AckNumber` | src/kernel/tcp.c:1790-1880 | The acknowledgement branches of ESTABLISHED. |
| `TcpPcb.Pcb.DuplicateAck` | src/kernel/tcp.c:1838-1879 | Fast retransmit on the third duplicate, inflation on later ones. |
| `TcpPcb.Pcb.TakeWindow` | src/kernel/tcp.c:1882-1908 | The window update rule and the end of persist probing. |
| `TcpPcb.Pcb.FinWait1Input` | src/kernel/tcp.c:1995-2057 | tcp_input in FIN_WAIT1. |
| `TcpPcb.Pcb.Input` | src/kernel/tcp.c:1694-2140 | The send half of tcp_input in every connected state. |
| `TcpPcb.Pcb.DataTimer` | src/kernel/tcp.c:644-709 | Retransmission timeout with backoff, collapse of the window and reset after the retry limit. |
| `TcpPcb.Pcb.PersistTimer` | src/kernel/tcp.c:711-766 | Zero-window probes with backoff and limit. |
| `TcpPcb.Pcb.FinTimer` | src/kernel/tcp.c:767-849 | Teardown timeout: oldest data first, then the FIN, then give up. |
| `TcpPcb.Pcb.Tick` | src/kernel/tcp.c:537-877 | The timer tick of one connection. |
| `TcpPcb.Pcb.Close` | src/kernel/tcp.c:973-1038 | The first half of tcp_close. |
| `TcpPcb.Pcb.Shutdown` | src/kernel/tcp.c:1115-1125 | The first half of shutdown of the write side. |
| `TcpPcb.Pcb.FinishClose` | src/kernel/tcp.c:997-1164 | The second half of close or shutdown after its drain. |
| `RxRing.RingAppend` | src/kernel/tcp.c:2184-2208 | Storing behind the tail, wrapped or not, appends to the ring contents. |
| `RxRing.RxBuffer.Write` | src/kernel/tcp.c:2184-2208 | The ring takes exactly min(len, free) bytes, appended in order. |
| `RxRing.RxBuffer.Read` | src/kernel/tcp.c:2210-2234 | The ring gives its first min(len, used) bytes and keeps the rest. |
| `TcpReceive.SegmentKeeps` | src/kernel/tcp.c:1922-1994 | A segment that is empty or any cut of the peer stream, old, new, overlapping or future, keeps the receive invariant. |
| `TcpReceive.SegmentExactly` | src/kernel/tcp.c:1922-1994 | A piece of the stream at the receiver position is stored as far as 8192 bytes hold it (or only counted after SHUT_RD) and advances RCV.NXT by as much; at any other position it stores nothing; its FIN is taken if and only if everything before it has been. |
| `TcpReceive.ReadExactly` | src/kernel/tcp.c:2236-2285 | A read hands over the oldest min(len, stored) bytes and loses none. |
| `TcpReceive.RxRunKeeps` | src/kernel/tcp.c:2008-2090 | So does every sequence of arrivals, reads and shutdowns. |
| `TcpReceive.ReceiveTheorem` | src/kernel/tcp.c:1922-1994 | Under any reordering, duplication or loss, bytes read ++ ring contents is the peer stream up to RCV.NXT, and end of file only after the last byte. |
| `TcpReceive.ShutForever` | src/kernel/tcp.c:1101-1113 | After SHUT_RD nothing is stored or delivered any more in any later run. |
| `TcpDelivery.DeliveryTheorem` | src/kernel/tcp.c:1922-1994 | If the pieces the sender cut its stream into come by once in order, each fitting the ring, then whatever duplicates, reorderings and reads came between, read bytes and ring are the whole stream. |
| `TcpDelivery.FinDelivered` | src/kernel/tcp.c:1979-1994 | And end of file, once a FIN has come with or after the last piece. |
| `TcpConnection.Receiver.Data` | src/kernel/tcp.c:1922-1975 | In-order payload enters the ring as far as it fits. |
| `TcpConnection.Receiver.Segment` | src/kernel/tcp.c:1922-1994 | The receive half of tcp_input and its verdict on the FIN. |
| `TcpConnection.Receiver.Read` | src/kernel/tcp.c:2236-2285 | tcp_receive_read delivers the front of the ring. |
| `TcpConnection.Receiver.ShutRead` | src/kernel/tcp.c:1095-1113 | shutdown of the read side discards what is unread, once. |
| `TcpConnection.Connection.Input` | src/kernel/tcp.c:1694-2140 | Both halves of a connection take their step on the same segment. |
| `TcpEndToEnd.EndToEnd` | src/kernel/tcp.c:1585-2163 | For every run of a sender and every order in which copies of its packets, zero-window probes included, reach a receiver, the reader gets a prefix of what the writer wrote, and end of file means all of it. |
| `Checksum.Add` | src/kernel/tcp.c:64-76 | The 32-bit word loop, odd lengths included, adds the sum of the big-endian words. |
| `Checksum.Finish` | src/kernel/tcp.c:78-84 | The folding loop gives the one's complement of the end-around-carry sum. |
| `Checksum.Compute` | src/kernel/tcp.c:1404-1421 | tcp_checksum with its pseudo header; longer segments than 65535 give 0. |
| `Checksum.TotalIsSum` | src/kernel/tcp.c:1404-1421 | What is summed is the words of the twelve pseudo-header bytes (addresses, zero, protocol, length) followed by the segment. |
| `Checksum.WordSumSet` | src/kernel/tcp.c:64-76 | Replacing one aligned word changes the sum by the difference of the words. |
| `Checksum.SealVerifies` | src/kernel/tcp.c:322-333 | Storing the checksum (0 sent as 0xFFFF) makes verification return zero for every segment. |
| `Checksum.OneWordChange` | src/kernel/tcp.c:1615-1618 | Changing one aligned word of a verifying segment is undetected if and only if the word is unchanged or 0x0000 and 0xFFFF were swapped. |
| `Pmm.FirstFree` | src/kernel/memory.c:68-80 | The lowest unused frame. |
| `Pmm.DropKeeps` | src/kernel/memory.c:82-100 | Freeing any address keeps "marked used iff referenced". |
| `Pmm.ShareKeepsIff` | src/kernel/memory.c:102-115 | Counting a reference keeps that exactly when the frame is in use and its 32-bit count does not wrap. |
| `Pmm.ShareWraps` | src/kernel/memory.c:102-115 | A frame shared 2^32 - 1 times is in use, counts no reference, and the next free of it is ignored. |
| `Pmm.TakeDrop` | src/kernel/memory.c:68-100 | Allocating and freeing a frame restores the manager. |
| `Pmm.Manager.constructor` | src/kernel/memory.c:37-66 | pmm_init: the reserved frames used once, the rest free. |
| `Pmm.Manager.Alloc` | src/kernel/memory.c:68-80 | First fit; NULL exactly when no frame is free. |
| `Pmm.Manager.Free` | src/kernel/memory.c:82-100 | One reference less; the last one clears the bit; misaligned, reserved and free frames ignored. |
| `Pmm.Manager.RefInc` | src/kernel/memory.c:102-115 | One reference more, in 32-bit arithmetic. |
| `Cow.MapFreshKeeps` | src/kernel/vmm.c:328-338 | Mapping a fresh frame keeps: every leaf's frame is counted at least once per mapping and a writable leaf is its frame's only mapping. |
| `Cow.ForkKeeps` | src/kernel/vmm.c:457-566 | Fork keeps it when no 32-bit count wraps. |
| `Cow.ForkKeepsIff` | src/kernel/vmm.c:457-566 | Fork keeps it if and only if for every frame the count plus the number of the parent's pages that map it stays below 2^32. |
| `CowOverflow.Leaks` | src/kernel/vmm.c:286-326 | On a machine with one process of one page whose frame has count n, 0 < n < 2^32 - 1: a fork and the exit of the child leave the state with count n + 1, while the eager memory is as it was; at n = 1 the entry of the page also goes from writable to copy-on-write. |
| `CowOverflow.Reaches` | src/kernel/vmm.c:457-566 | From a machine with frame 0 reserved, 2^32 - 2 forks and exits of a one-page process bring its count to one short of the wrap, with the same memory as under eager copying. |
| `CowOverflow.WrapBreaksIsolation` | src/kernel/vmm.c:457-644 | The next fork wraps the count; one store of the parent then changes what the child reads. |
| `Cow.ResolveKeeps` | src/kernel/vmm.c:568-644 | The write-fault handler, claiming or copying the frame, keeps it. |
| `Cow.DestroyKeeps` | src/kernel/vmm.c:286-326 | Tearing a space down keeps it. |
| `Cow.ForkSame` | src/kernel/vmm.c:457-566 | Copy-on-write fork is indistinguishable from copying every page. |
| `Cow.StoreSame` | src/kernel/vmm.c:568-644 | A user store through the fault handler changes only the storing process's page, as under eager copying. |
| `Cow.StepRefines` | src/kernel/vmm.c:457-644 | Every step of the copy-on-write machine is matched by the eager one. |
| `Cow.RunRefines` | src/kernel/vmm.c:457-644 | So is every run. |
| `Cow.CowRefinesEager` | src/kernel/vmm.c:457-644 | From a machine with no processes, after any run, every process reads from every page what it would have read had each fork copied, and a writable entry is its frame's only mapping. |
| `CowLedger.StepLedger` | src/kernel/vmm.c:568-644 | Every step changes the references of a frame that no mapping accounts for by exactly the leaf entries it drops: a write fault and a fork change nothing. |
| `CowLedger.LedgerTheorem` | src/kernel/vmm.c:286-644 | Over every run from a machine without processes, the count of a frame is what it was, plus the pages that map it, plus the entries of it that teardown or mapping over a page dropped; a frame free at the start is in use if and only if one of those is not zero. |
| `CowLedger.KernelUnmapped` | src/kernel/vmm.c:457-644 | A frame in use from the start never becomes a user page. |
| `CowLedger.LastUserClaims` | src/kernel/vmm.c:603-638 | In runs without teardown and overwriting, a store to a copy-on-write page copies it if and only if another page maps the frame. |
| `CowKernel.Kernel.ClonePage` | src/kernel/vmm.c:516-559 | One leaf of the clone: both entries shared, the frame counted. |
| `CowKernel.Kernel.Clone` | src/kernel/vmm.c:457-566 | The clone loop over all leaves is the fork step, for every parent; the kernel stays sound if and only if no count wraps. |
| `CowKernel.Kernel.TakeFrame` | src/kernel/memory.c:68-80 | A frame number unless memory is exhausted. |
| `CowKernel.Kernel.MapPage` | src/kernel/vmm.c:328-338 | A new page in a space. |
| `CowKernel.Kernel.WriteFault` | src/kernel/vmm.c:568-644 | The handler resolves exactly the faults on copy-on-write pages it has memory for. |
| `CowKernel.Kernel.UserStore` | src/kernel/vmm.c:568-644 | A store after the handler had its turn. |
| `PageTable.EnsureKeeps` | src/kernel/vmm.c:110-155 | ensure_next_table, on success or failure and also when it copies a table for the user flag, changes no translation and keeps the tables a tree of owned frames. |
| `PageTable.MapAtKeeps` | src/kernel/vmm.c:157-184 | At every level of the walk, success rewrites the translation of one page, failure of none. |
| `AddressSpace.IndexIsDigit` | src/kernel/vmm.c:157-184 | The four 9-bit fields of an address are the base-512 digits of its page number. |
| `AddressSpace.SamePathSamePage` | src/kernel/vmm.c:157-184 | Two pages that take the same path through the tables are the same page. |
| `AddressSpace.MapRefinesFlat` | src/kernel/vmm.c:157-184 | map_in_pml4 is an update of a flat partial map at exactly one page, or at none when it fails. |
| `AddressSpace.Mmu.NextTable` | src/kernel/vmm.c:110-155 | The three branches of ensure_next_table, including the failures. |
| `AddressSpace.Mmu.Descend` | src/kernel/vmm.c:157-184 | One level of the walk hands on an owned subtree. |
| `AddressSpace.Mmu.Map` | src/kernel/vmm.c:157-184 | The mapping loop is the update MapRefinesFlat speaks of. |
| `AddressSpace.Mmu.Walk` | src/kernel/vmm.c:398-433 | The level-by-level walk finds the flat map's entry. |
| `AddressSpace.Mmu.IsMapped` | src/kernel/vmm.c:398-433 | True exactly for the pages of the flat map. |
| `AddressSpace.Mmu.VirtToPhys` | src/kernel/vmm.c:212-247 | Frame address plus offset for the pages of the flat map, 0 for all others. |
| `CowTables.MapIsUpdate` | src/kernel/vmm.c:157-184 | map_in_pml4 on the tables is the update of one page of the address space the copy-on-write model works on. |
| `CowTables.MapConfined` | src/kernel/vmm.c:110-184 | Mapping a page touches its root, the tables below that page's slot and frames that were unused, and no other table. |
| `CowTables.OtherKept` | src/kernel/vmm.c:157-184 | With two trees that share only kernel tables, mapping a user page in one changes no translation of the other and keeps them apart. |
| `CowTables.InPlaceIsMap` | src/kernel/vmm.c:529-535 | Overwriting a leaf where it stands is map_in_pml4 on a path of user tables: no frame is taken. |
| `CowClone.StartApart` | src/kernel/vmm.c:463-478 | The child's root, with the parent's kernel slots and empty user slots, begins as a tree of its own apart from the parent's and maps no user page. |
| `CowClone.StepExactly` | src/kernel/vmm.c:516-559 | One leaf of the clone: the parent's entry guarded, the child's there if and only if its tables could be had, every other page of both as it was. |
| `CowClone.CloneExactly` | src/kernel/vmm.c:480-562 | The same for the whole loop, page by page, with the child's tables taken from the same frames. |
| `CowClone.ClonedAt` | src/kernel/vmm.c:480-562 | For every page: the parent keeps it, as a shared entry if its path is open to user mode and unchanged if not, and the child has it, as the shared entry, if and only if its own mapping succeeded. |
| `CowClone.NoFrameNoPage` | src/kernel/vmm.c:157-184 | With no frame left a page whose slot the child does not have yet is not mapped, and the clone does not notice. |
| `TableNeeds.MapNeeds` | src/kernel/vmm.c:110-184 | A mapping succeeds if and only if the tables missing on the page's path, counted in the tree before the call, are no more than the free frames, and it takes exactly that many. |
| `TableNeeds.MapMarks` | src/kernel/vmm.c:157-184 | Which tables every other page finds after a mapping: those on the shared part of the path are there, user ones if the leaf is, and no other changes. |
| `CloneNeeds.StepNeeds` | src/kernel/vmm.c:516-559 | The step of the clone for one leaf succeeds if and only if the tables the child misses for it are no more than the free frames. |
| `CloneNeeds.CloneCost` | src/kernel/vmm.c:480-562 | As long as no page was lost, the clone has taken exactly one frame for each table needed by the pages so far, a set read off the parent's tree before the call. |
| `CloneNeeds.NothingLost` | src/kernel/vmm.c:480-562 | No page is lost if and only if the number of tables needed is at most the number of free frames at the start. |
| `CloneNeeds.CloneTheorem` | src/kernel/vmm.c:457-566 | The clone succeeds if and only if one frame is free; the parent then has the shared entries and the child nothing but shared entries of the parent's pages; the child has the space the fork step gives it if and only if every page can be cloned and one frame for the root and one for each needed table were free before the call. |
| `CloneLoss.UserNeeds` | src/kernel/vmm.c:157-184 | Where every page that can be cloned is a user page, the number of needed tables is the number of distinct v/512, v/512^2 and v/512^3 over those pages v. |
| `CloneLoss.PageLost` | src/kernel/vmm.c:457-566 | A state reached from an empty tree by one mapping, with one frame left: the clone of a process with one page succeeds and the child has no page. |
| `HeapBlocks.AllocateKeeps` | src/kernel/heap.c:112-133 | Splitting and taking a free block keeps the tiling and that no two neighbours are free, and gives a block of the size asked for, less than 72 bytes larger. |
| `HeapBlocks.GrowKeeps` | src/kernel/heap.c:84-110 | Growth keeps the tiling and leaves a free last block of the added size; no block in use changes. |
| `HeapBlocks.CoalesceKeeps` | src/kernel/heap.c:135-149 | The recursive coalesce, from a state with one open spot, ends with no two free neighbours and the same tiling. |
| `HeapBlocks.ReleaseKeeps` | src/kernel/heap.c:251-253 | Freeing keeps both invariants. |
| `HeapBlocks.ReleaseLive` | src/kernel/heap.c:216-256 | Freeing ends exactly that one allocation. |
| `HeapBlocks.AllocateLive` | src/kernel/heap.c:188-214 | Allocating adds exactly one live block. |
| `HeapBlocks.AllReleased` | src/kernel/heap.c:135-149 | With nothing live the heap is one free block from start to end. |
| `HeapBlocks.PayloadsDisjoint` | src/kernel/heap.c:22-28 | No header or payload overlaps another block's. |
| `HeapBlocks.RunKeeps` | src/kernel/heap.c:188-256 | Tiling and coalescing hold after every run of takes, growths and releases. |
| `HeapBlocks.HeapTheorem` | src/kernel/heap.c:188-256 | Over every run from the empty heap live blocks are disjoint, and a run that ends with nothing live leaves a single free block. |
| `HeapRuns.PayloadTheorem` | src/kernel/heap.c:188-256 | Over every run of allocations, frees, growths and stores by other owners, the payload of a block reads the same as long as it stays live and its owner does not store into it. |
| `HeapRuns.ReadsBack` | src/kernel/heap.c:188-256 | So a byte stored into a payload is the byte read after any such run. |
| `HeapLinks.LinkTake` | src/kernel/heap.c:112-133 | The header writes of a split and a mark leave prev and next agreeing with the new row of blocks. |
| `HeapLinks.LinkMerge` | src/kernel/heap.c:137-144 | So do the header writes of a merge. |
| `HeapLinks.LinkGrow` | src/kernel/heap.c:84-107 | So do those of heap_expand. |
| `Heap.GuardExactly` | src/kernel/heap.c:67-72 | The limit check of heap_expand is right if and only if the 64-bit sum does not wrap. |
| `Heap.GuardWraps` | src/kernel/heap.c:67-72 | A concrete request that wraps and passes the check. |
| `Heap.Align16Exactly` | src/kernel/heap.c:35-38 | The rounding of kmalloc covers the request if and only if it does not wrap; when it wraps it gives 0. |
| `Heap.AnswerableBelow` | src/kernel/heap.c:64-72 | Every request below 0x6FEF0000 bytes meets the precondition of the kmalloc model, whatever the heap looks like. |
| `Heap.FirstFitExactly` | src/kernel/heap.c:199-207 | The search of kmalloc fails if and only if no free block is large enough, and otherwise finds the first that is. |
| `Heap.RefusesExactly` | src/kernel/heap.c:64-79 | Where nothing wraps, expansion is refused if and only if the range does not fit below the limit or one of its pages cannot be mapped. |
| `Heap.WrappedAdds` | src/kernel/heap.c:67-98 | Also when the sum wraps, the 64-bit difference between the new end and the old is the request rounded up to the next page end: the block written is as large as asked for, although the heap is not. |
| `Heap.HugeAccepted` | src/kernel/heap.c:188-214 | On the initial heap a request of 0x70000000 bytes, more than the heap may ever hold, passes the guard. |
| `Heap.NeverReturns` | src/kernel/heap.c:64-110 | When the request with its header is within a page of 2^64 and the last block is free, heap_expand succeeds and changes no bound and no header, so kmalloc does not return. |
| `Heap.PoisonedAt` | src/kernel/heap.c:245-249 | Freed bytes read 0xDD and no other byte changes. |
| `Heap.LiveReleased` | src/kernel/heap.c:216-244 | The pointer of a block is one that kfree releases if and only if the block is live. |
| `Heap.Allocator.constructor` | src/kernel/heap.c:176-186 | heap_init: one free block of four pages, or an empty heap when they cannot all be mapped. |
| `Heap.MapPages` | src/kernel/heap.c:74-79 | The page loop succeeds exactly when every page can be mapped. |
| `Heap.Allocator.Tail` | src/kernel/heap.c:84-87 | The pointer walk ends at the last block. |
| `Heap.Allocator.Extend` | src/kernel/heap.c:81-110 | The header writes of heap_expand after its guard, also on a wrapped sum; the new row of blocks, well linked, with live data kept whenever no block size wraps. |
| `Heap.Allocator.Expand` | src/kernel/heap.c:64-110 | Succeeds exactly when the guard passes and every page maps; then the new end, the headers written and the new row of blocks, also when the sum wraps and the end shrinks; on failure nothing changes. |
| `Heap.Allocator.Find` | src/kernel/heap.c:199-207 | First fit by pointer walk, on any well linked list. |
| `Heap.Allocator.SplitBlock` | src/kernel/heap.c:112-133 | The header writes of a split, with the 64-bit address of the new header. |
| `Heap.Allocator.Take` | src/kernel/heap.c:200-205 | In a sound heap the block found becomes the one new live block and no live byte changes; in any heap the block is large enough and no longer free. |
| `Heap.Allocator.Malloc` | src/kernel/heap.c:188-214 | Terminates after at most one expansion; NULL exactly for size 0 or when nothing fits and expansion is refused; the block lies inside the heap if and only if the request is answerable, and it is then the first fitting block, fresh, large enough, all live payloads untouched; a request that is not answerable but passes the guard gets the payload of a swollen last block. |
| `Heap.Allocator.CoalesceAt` | src/kernel/heap.c:135-149 | The recursive pointer version is the coalescing function. |
| `Heap.Allocator.Poison` | src/kernel/heap.c:246-249 | The poisoning loop. |
| `Heap.Allocator.Free` | src/kernel/heap.c:216-256 | NULL, out-of-range and already free pointers and in-heap pointers without an allocated header before them change nothing; a live one is released, poisoned and coalesced and every other live payload is untouched. |
| `Heap.Allocator.Validate` | src/kernel/heap.c:151-174 | On any list of headers that ends, heap_validate accepts if and only if every magic number is one of the two and every block behind points back. |
| `Heap.ReachableIntact` | src/kernel/heap.c:151-174 | Every reachable heap is such a list and is accepted. |
| `SectorCache.ContentAfter` | src/kernel/bcache.c:104-107 | Replacing one entry changes what readers see of at most the two sectors it names. |
| `SectorCache.ReadKeeps` | src/kernel/bcache.c:46-112 | A read, with any device failures, changes nothing a reader can see, and if it succeeds returns what is there. |
| `SectorCache.ReadAnswers` | src/kernel/bcache.c:46-112 | A read returns what is there whenever the sector is cached or the device accepts both its requests; without the device an uncached sector is refused. |
| `SectorCache.WriteExactly` | src/kernel/bcache.c:114-174 | After a write the sector reads as the buffer even if the device refused it; another sector changes if and only if it was evicted dirty, its write-back failed and left other contents. |
| `CacheLoss.LossReached` | src/kernel/bcache.c:114-174 | A run from the empty cache that loses a buffer: a refused write, 63 more writes, and an eviction whose write-back is refused. |
| `SectorCache.FlushKeeps` | src/kernel/bcache.c:176-191 | Flushing is invisible and clears the dirty entries the device accepted. |
| `SectorCache.FlushCommits` | src/kernel/bcache.c:176-191 | After a fully accepted flush the disk holds what readers see. |
| `SectorCache.InvalidateExactly` | src/kernel/bcache.c:193-203 | Invalidation exposes the disk's copy of that sector and no other. |
| `SectorCache.RunRefines` | src/kernel/bcache.c:46-203 | Over every safe run with device failures the cache shows a plain disk's contents, no sector cached twice, clean entries equal to the disk. |
| `SectorCache.ReadsLastWrite` | src/kernel/bcache.c:46-203 | Every read with a working device succeeds, and every read that succeeds returns the last buffer written to that sector. |
| `CacheLru.OldestIs` | src/kernel/bcache.c:69-85 | The victim scan finds the smallest stamp. |
| `CacheLru.VictimIsLast` | src/kernel/bcache.c:69-85 | The victim of a full cache is the least recently used of the kept sectors. |
| `CacheLru.AccessKeeps` | src/kernel/bcache.c:56-85 | A hit, a miss with room and a miss on a full cache all keep: valid entries are the most recent sectors in stamp order. |
| `CacheLru.LruTheorem` | src/kernel/bcache.c:125-163 | In every failure-free run of fewer than 2^64 accesses a sector is cached iff it is among the most recent distinct ones, as many as there are entries, and then a read needs no device; no two entries hold the same sector or stamp. |
| `Bcache.BufferCache.constructor` | src/kernel/bcache.c:37-44 | The empty cache shows the disk. |
| `Bcache.BufferCache.Find` | src/kernel/bcache.c:56-64 | The hit scan. |
| `Bcache.BufferCache.PickVictim` | src/kernel/bcache.c:69-85 | The victim scan over the array. |
| `Bcache.BufferCache.ReadSector` | src/kernel/bcache.c:46-112 | bcache_read_sector is the read step of the refinement. |
| `Bcache.BufferCache.ClaimSlot` | src/kernel/bcache.c:125-160 | The slot of a write, with the unnoticed write-back. |
| `Bcache.BufferCache.WriteSector` | src/kernel/bcache.c:114-174 | bcache_write_sector is the write step; its result is the write-through's. |
| `Bcache.BufferCache.Flush` | src/kernel/bcache.c:176-191 | The flush loop is the flush step. |
| `Bcache.BufferCache.Discard` | src/kernel/bcache.c:193-203 | The invalidate loop is the invalidate step. |
| `FatChain.Acyclic` | src/drivers/fat16.c:361-385 | A chain that ends visits no cluster twice. |
| `FatChain.OneChain` | src/drivers/fat16.c:752-771 | A first cluster determines the chain. |
| `FatChain.ChainFits` | src/drivers/fat16.c:361-366 | A chain is shorter than the guard of free_chain_from. |
| `FatChain.ExtendChain` | src/drivers/fat16.c:1649-1656 | Linking a free cluster lengthens the chain by one and uses one free cluster. |
| `FatChain.CutKeeps` | src/drivers/fat16.c:1665-1675 | Cutting keeps the front as a chain, frees the rest and touches nothing else. |
| `FatChain.CutCount` | src/drivers/fat16.c:1665-1675 | Free plus chained clusters is conserved by a cut. |
| `FatChain.FreeNotInChain` | src/drivers/fat16.c:341-345 | A free cluster is on no chain. |
| `FatVolume.MaxClusterOk` | src/drivers/fat16.c:270-299 | max_data_cluster stays inside the table and below the reserved numbers. |
| `FatVolume.ClusterOnVolume` | src/drivers/fat16.c:219-223 | Every sector of a data cluster lies on the volume. |
| `FatVolume.ClustersApart` | src/drivers/fat16.c:219-223 | Different sectors of data clusters have different addresses. |
| `FatVolume.FatApart` | src/drivers/fat16.c:240-263 | Different copies and different entries have different places. |
| `FatVolume.ClusterWritten` | src/drivers/fat16.c:830-834 | Writing one sector of one cluster changes that sector only. |
| `Fat16.Volume.ReadEntry` | src/drivers/fat16.c:225-238 | The entry at the byte offset read_fat_entry computes. |
| `Fat16.Volume.WriteEntry` | src/drivers/fat16.c:240-263 | All copies of the table take the value, stay equal, and no cluster or root directory sector changes. |
| `Fat16.Volume.ReadData` | src/drivers/fat16.c:674-676 | A sector of a cluster. |
| `Fat16.Volume.WriteData` | src/drivers/fat16.c:832-834 | Exactly that sector changes. |
| `Fat16.Volume.ClearCluster` | src/drivers/fat16.c:306-324 | The cluster reads as zeros and nothing else changes. |
| `Fat16.Volume.AllocateCluster` | src/drivers/fat16.c:326-359 | The lowest free cluster, ended and zeroed; fails exactly when none is free. |
| `Fat16.Volume.FreeChain` | src/drivers/fat16.c:361-385 | The whole chain is freed: the guard never cuts it short. |
| `Fat16.Volume.Lengthen` | src/drivers/fat16.c:1641-1663 | The walking and appending loop: the old chain is a prefix, appended clusters were free and are zeroed, all else unchanged, counts conserved, failure only when the volume is full. |
| `Fat16.Volume.CutBehind` | src/drivers/fat16.c:1665-1681 | What lies behind the required cluster is freed and the chain ends there. |
| `Fat16.Volume.Resize` | src/drivers/fat16.c:1619-1682 | Succeeds if and only if chain plus free clusters suffice; leaves a chain of exactly the requested length sharing the longest possible prefix, dropped clusters free, every other entry unchanged, free plus chained conserved, all FAT copies equal. |
| `FatFile.ResizeOthers` | src/drivers/fat16.c:1619-1682 | A resize leaves every other file's chain as it was. |
| `FatContent.SectorAt` | src/drivers/fat16.c:663-691 | Where sector s of the k-th cluster lies in the file. |
| `FatContent.SectorSet` | src/drivers/fat16.c:830-834 | A write to a cluster's sector writes that sector of the file and no other. |
| `FatContent.AppendedSectors` | src/drivers/fat16.c:713-750 | A file that grew holds its old sectors and then zeros. |
| `FatContent.SpliceStep` | src/drivers/fat16.c:815-836 | Each chunk extends the range written so far and changes no other byte. |
| `FatContent.ReadBack` | src/drivers/fat16.c:636-700 | What was spliced in is what is read. |
| `FatFile.RequiredExactly` | src/drivers/fat16.c:702-711 | The cluster rounding covers the size if and only if it does not wrap 32 bits; when it wraps the answer is 0. |
| `FatFile.RequiredWraps` | src/drivers/fat16.c:702-711 | A volume and a size for which it wraps. |
| `FatFile.RoomExactly` | src/drivers/fat16.c:702-776 | Once ensure_chain_capacity has succeeded the chain holds the range if and only if the rounding did not wrap and the clusters sufficed: no chain holds so much that rounding its size could wrap. |
| `FatFile.EnsureCapacity` | src/drivers/fat16.c:713-750 | The chain is lengthened to the rounded size by zeroed clusters; fails only on a full volume, with a valid chain. |
| `FatFile.ClusterForOffset` | src/drivers/fat16.c:752-776 | The cluster and the byte an offset falls in; fails exactly beyond the chain. |
| `FatFile.WritePart` | src/drivers/fat16.c:824-834 | One partial or whole sector. |
| `FatFile.WriteCluster` | src/drivers/fat16.c:803-837 | The inner loop, with its skipped sectors, writes the buffer up to the cluster's end. |
| `FatFile.WriteFrom` | src/drivers/fat16.c:800-849 | The outer loop writes min(size, room in the chain) bytes. |
| `FatEntry.NodeStays` | src/drivers/fat16.c:713-750 | The clusters appended to a file were free, so the cluster that holds its directory entry is none of them. |
| `FatEntry.EntryRoundTrip` | src/drivers/fat16.c:585-604 | The directory entry reads back what was stored, the archive bit is set, and every other bit of the attributes and every byte but the attributes, first cluster and size is untouched. |
| `FatEntry.NeighboursKept` | src/drivers/fat16.c:585-604 | The 32 bytes of every other entry in the sector are untouched. |
| `FatEntry.EntryWritten` | src/drivers/fat16.c:585-604 | Writing the entry, in the root directory or in a subdirectory's cluster, changes that one sector and no table entry. |
| `FatEntry.UpdateEntry` | src/drivers/fat16.c:585-604 | Fails exactly without an entry; otherwise the disk and the clusters change in the entry's sector only, and the entry on disk names the first cluster and size. |
| `FatFile.WriteChain` | src/drivers/fat16.c:778-864 | For a file in the root or any subdirectory: it becomes its old sectors, zero-filled growth, with exactly the written bytes spliced in; outside it only its directory entry changes, on the clusters and in the root directory; all bytes are written if and only if there is room and no wrap; return value, new size, and the entry on disk; with nothing written the entry is untouched, and a write that needs more clusters than are free writes nothing and appends every free cluster. |
| `FatFile.ReadCluster` | src/drivers/fat16.c:661-691 | The inner read loop. |
| `FatFile.ReadFrom` | src/drivers/fat16.c:661-697 | The outer read loop returns min(size, room in the chain) bytes of the file. |
| `FatFile.ReadChain` | src/drivers/fat16.c:636-700 | The bytes of the file at the offset, cut at the file size and the chain's end. |
| `FatFile.WriteThenRead` | src/drivers/fat16.c:636-864 | A write that returns its full size, read back through the directory entry on disk, gives the same bytes. |
| `FatFile.WriteKeepsOthers` | src/drivers/fat16.c:778-864 | Any other file keeps its chain and, unless it is the directory that holds the entry, every byte; that directory changes in the entry's sector only, and no entry at another index in a sector of it changes. |
| `FatFile.RootEntriesKept` | src/drivers/fat16.c:585-604 | In the root directory a write changes no entry but the one of the file. |
| `FatFile.ClustersUnnamed` | src/drivers/fat16.c:778-792 | After a failed write to a file that had no cluster, the entry on disk still names none, so nothing on disk names the clusters it was given. |
| `FatFile.OthersKept` | src/drivers/fat16.c:778-864 | A file sharing no cluster with what changed keeps its chain and every byte. |
| `Scheduling.TerminateOthers` | src/kernel/scheduler.c:792-847 | Ending a task leaves every other runnable task runnable. |
| `Scheduling.DeliverExactly` | src/kernel/scheduler.c:920-1000 | Delivery makes a runnable task a zombie if and only if its lowest deliverable signal is fatal, and otherwise leaves its state. |
| `Scheduling.IgnoredExactly` | src/kernel/scheduler.c:931-1000 | A signal set to be ignored is dropped if and only if it is SIGCHLD, SIGCONT, SIGPIPE, SIGINT or SIGTERM; any other but SIGKILL is delivered on a user frame with a usable stack, the frame entering the ignore marker itself. |
| `Scheduling.IgnoredEntered` | src/kernel/scheduler.c:947-999 | So it is for signal 10 on a one-task table. |
| `TaskFates.SignalFate` | src/kernel/scheduler.c:920-1000 | For a user task about to run with s its lowest deliverable signal: it becomes a zombie if and only if s is SIGKILL, the handler is invalid, or default for anything but SIGCHLD and SIGCONT, or would be entered from ring 3 on a stack that is out of range or cannot be mapped; dropped, s just stops being pending; outside ring 3 nothing changes; otherwise the state is kept, exactly s leaves the pending set and becomes active, and the frame enters that handler. |
| `TaskFates.NoSignal` | src/kernel/scheduler.c:920-930 | With nothing deliverable, a signal being handled, or a kernel task, nothing changes. |
| `TaskFates.TerminateMeans` | src/kernel/scheduler.c:792-847 | Ending a task: its children belong to task 1, exactly those waiting for it become ready, and nothing else about others changes but a pending SIGCHLD. |
| `TaskFates.ParentTold` | src/kernel/scheduler.c:831-847 | SIGCHLD becomes pending in the parent if and only if it installed something for it, and in nobody else. |
| `TaskFates.TerminateRooted` | src/kernel/scheduler.c:823-827 | Everybody alive keeps a parent that is alive, task 1, or none. |
| `TaskFates.TickLife` | src/kernel/scheduler.c:1003-1084 | Every tick keeps that, and at most the current task is running. |
| `TaskFates.IdleRuns` | src/kernel/scheduler.c:1066-1084 | When no other task may run, the tick dispatches the idle task and changes nobody else. |
| `Scheduling.NextSignal` | src/kernel/scheduler.c:876-886 | The lowest pending signal that is not blocked. |
| `TaskTable.Scheduler.NextPending` | src/kernel/scheduler.c:876-886 | The loop finds it. |
| `Scheduling.DeliverKeeps` | src/kernel/scheduler.c:920-1000 | Delivering a signal either leaves the task's state or makes it a zombie, and leaves the other runnable ones alone. |
| `Scheduling.Closer` | src/kernel/scheduler.c:1028-1034 | Dispatching an earlier candidate strictly shortens the cyclic distance to the waiting task. |
| `Scheduling.ScanAt` | src/kernel/scheduler.c:1025-1065 | The scan stops at the first attempt that finds a task that may run, on the table the earlier attempts left. |
| `Scheduling.ScanReaches` | src/kernel/scheduler.c:1025-1065 | One scan makes the waiting task a zombie if and only if it comes to it with its lowest deliverable signal fatal; otherwise it stops at it or at a task closer to it, whatever other candidates are killed on the way. |
| `Scheduling.TickReaches` | src/kernel/scheduler.c:1003-1084 | One tick ends the task, exactly as just said, dispatches it, or brings it closer. |
| `Scheduling.BoundedWaiting` | src/kernel/scheduler.c:1003-1084 | A non-idle task that is ready before each of task_count ticks is in one of them dispatched, or come to with its lowest deliverable signal fatal, with anything else changing in between. |
| `TaskTable.Scheduler.Orphan` | src/kernel/scheduler.c:823-830 | The loops that reparent children and wake waiters. |
| `TaskTable.Scheduler.TerminateTask` | src/kernel/scheduler.c:792-847 | The whole effect of a termination on the table. |
| `TaskTable.Scheduler.DeliverSignal` | src/kernel/scheduler.c:920-1000 | The verdict and effect of a pending signal. |
| `TaskTable.Scheduler.Select` | src/kernel/scheduler.c:1025-1065 | The selection loop is the scan. |
| `TaskTable.Scheduler.TimerTick` | src/kernel/scheduler.c:1003-1084 | scheduler_tick on the table is the tick of the theorems. |
| `Pipes.Pipe.constructor` | src/kernel/kernel.c:1568-1573 | An empty pipe with one reader and one writer. |
| `Pipes.Pipe.Pop` | src/kernel/kernel.c:762-766 | One byte leaves the front. |
| `Pipes.Pipe.Push` | src/kernel/kernel.c:808-812 | One byte joins the back. |
| `Pipes.Pipe.Read` | src/kernel/kernel.c:749-782 | pipe_read on the ring is the read of the byte stream the theorems are about: the first bytes stored, end of file only without writers, sleep only with one. |
| `Pipes.Pipe.Write` | src/kernel/kernel.c:784-823 | pipe_write on the ring is the write of that stream: a prefix of the buffer is appended until it or the space ends; broken pipe exactly without readers. |
| `Pipes.Pipe.CloseEnd` | src/kernel/kernel.c:710-747 | pipe_node_close: the counter of that end falls, and the pipe goes when both are zero. |
| `Descriptors.UnrefKeeps` | src/kernel/kernel.c:589-609 | Dropping a held reference keeps counts, close-once and pipe counters. |
| `Descriptors.RefKeeps` | src/kernel/kernel.c:580-587 | Taking a reference keeps them. |
| `Descriptors.InstallKeeps` | src/kernel/kernel.c:1080-1085 | Filling an empty slot keeps them. |
| `Descriptors.RemoveKeeps` | src/kernel/kernel.c:1716-1717 | Emptying a slot keeps them. |
| `Descriptors.AllocEndKeeps` | src/kernel/kernel.c:567-578 | Allocating the description of a pipe end keeps them. |
| `DescriptorRuns.DupKeeps` | src/kernel/kernel.c:1664-1682 | dup and F_DUPFD keep the invariant. |
| `DescriptorRuns.Dup2Keeps` | src/kernel/kernel.c:1684-1705 | dup2 keeps it. |
| `DescriptorRuns.CloseKeeps` | src/kernel/kernel.c:1707-1723 | close keeps it and empties exactly that slot. |
| `DescriptorRuns.MakePipeKeeps` | src/kernel/kernel.c:1538-1605 | sys_pipe keeps it on every success and failure path. |
| `DescriptorRuns.CloseFromKeeps` | src/kernel/kernel.c:626-639 | Exit empties every slot of the task and no other. |
| `DescriptorRuns.InheritKeeps` | src/kernel/scheduler.c:1152-1156 | Fork keeps it. |
| `DescriptorRuns.InheritCopies` | src/kernel/scheduler.c:216-229 | After a fork the child's slots name what the parent's do and no other slot changed. |
| `DescriptorCalls.DupSucceeds` | src/kernel/kernel.c:1664-1682 | dup and F_DUPFD put the description into the lowest empty slot and change no other. |
| `DescriptorCalls.DupFails` | src/kernel/kernel.c:1664-1682 | They change nothing on an empty slot or a full table. |
| `DescriptorCalls.Dup2Exactly` | src/kernel/kernel.c:1684-1705 | dup2 sets exactly the target slot, if and only if the numbers are in range and the source slot is used. |
| `DescriptorCalls.OpenExactly` | src/kernel/kernel.c:1069-1089 | task_alloc_fd puts a new description into the lowest empty slot from 3 on, or with none empty leaves the slots and frees it. |
| `DescriptorCalls.PipeSucceeds` | src/kernel/kernel.c:1538-1605 | With memory and two empty slots sys_pipe makes the lowest two name the ends of a new pipe with one reader and one writer. |
| `DescriptorCalls.PipeFails` | src/kernel/kernel.c:1538-1605 | Otherwise it leaves every slot as it was. |
| `DescriptorRuns.RunKeeps` | src/kernel/kernel.c:567-639 | The invariant holds after every run of open, pipe, dup, dup2, F_DUPFD, fork, close, exit and temporary holds. |
| `DescriptorRuns.CloseOnce` | src/kernel/kernel.c:589-609 | Over every run ref_count is the number of slots and holds naming a description, and close runs exactly once, when the last goes. |
| `DescriptorRuns.EndsExactly` | src/kernel/kernel.c:710-747 | Over every run a pipe end counts if and only if a reference to it remains or its description could not be allocated. |
| `DescriptorRuns.PipeTheorem` | src/kernel/kernel.c:710-747 | When no description allocation fails, the counters say exactly whether references to each end remain. |
| `PipeLeaks.StrandedForever` | src/kernel/kernel.c:1574-1605 | Through every later run, exits included, a pipe end without a description keeps its pipe and its count of 1. |
| `PipeLeaks.LeakReached` | src/kernel/kernel.c:1574-1605 | One sys_pipe whose read end finds no memory leaves such a pipe with nothing referring to it. |
| `PipeRuns.EndOfFileTheorem` | src/kernel/kernel.c:749-782 | After every run, a read of at least one byte returns end of file if and only if all bytes written have been delivered and no reference to the write end is left, sleeps when a reference is, and otherwise returns the next min(size, stored) bytes. |
| `PipeRuns.BrokenPipeTheorem` | src/kernel/kernel.c:784-823 | After every run, a write is refused if and only if no reference to the read end is left; otherwise exactly the first min(size, room) bytes are appended, and it sleeps if and only if there are none. |
| `FdTables.Tables.constructor` | src/kernel/scheduler.c:205-210 | Empty tables. |
| `FdTables.Tables.AllocDesc` | src/kernel/kernel.c:567-578 | A description with one held reference. |
| `FdTables.Tables.OpenNode` | src/kernel/kernel.c:1069-1089 | task_alloc_fd on a plain node, and the slot it returns. |
| `FdTables.Tables.RefDesc` | src/kernel/kernel.c:580-587 | One reference more. |
| `FdTables.Tables.UnrefDesc` | src/kernel/kernel.c:589-609 | One less; the last closes and frees. |
| `FdTables.Tables.CloseNode` | src/kernel/kernel.c:710-747 | The counters of a pipe and its end. |
| `FdTables.Tables.SysDup` | src/kernel/kernel.c:1664-1682 | Fails if and only if the slot is bad or empty or no slot from the minimum on is free; otherwise the lowest such slot, and only it, comes to name the same description. |
| `FdTables.Tables.SysDup2` | src/kernel/kernel.c:1684-1705 | Fails if and only if a number is out of range or the slot is empty; otherwise the target slot, and only it, comes to name that description, after what it held was closed. |
| `FdTables.Tables.CloseSlot` | src/kernel/kernel.c:1707-1723 | close of one slot. |
| `FdTables.Tables.CloseAll` | src/kernel/kernel.c:626-639 | The closing loop of exit. |
| `FdTables.Tables.InheritFds` | src/kernel/scheduler.c:216-229 | The copying loop of fork. |
| `FdTables.Tables.PlaceDesc` | src/kernel/kernel.c:1080-1088 | The slot search from 3 on, or the description is given up. |
| `FdTables.Tables.SysPipe` | src/kernel/kernel.c:1538-1605 | Both descriptors, in the two lowest free slots from 3 on, or neither and every slot as it was. |
| `FdTables.Tables.GetDescription` | src/kernel/kernel.c:611-624 | A temporary reference. |
| `Paths.CompsJoin` | src/kernel/vfs.c:762-779 | A rendered path splits into exactly the components it was made of. |
| `Paths.Canonical` | src/kernel/vfs.c:703-781 | The result is absolute, has at most 32 names, none empty, "." or "..", and fits the buffer with its NUL. |
| `Paths.BuildExactly` | src/kernel/vfs.c:762-779 | It is refused if and only if the path and its NUL do not fit the buffer, and otherwise has exactly the names on the stack. |
| `Paths.Idempotent` | src/kernel/vfs.c:703-781 | Building from a canonical path gives it back, whatever the working directory. |
| `Paths.StackIsFull` | src/kernel/vfs.c:738-760 | The stack is that of the same loop without its limit of 32 if and only if its length is the depth that counting names and ".." gives. |
| `Paths.ShallowIsFull` | src/kernel/vfs.c:755-759 | It is whenever that count never passes 32 on the way. |
| `NodeTree.StepTracks` | src/kernel/vfs.c:187-207 | One component keeps the unlimited component stack and the walk at the same node. |
| `NodeTree.WalkInjective` | src/kernel/vfs.c:67-80 | In a tree with a parent for every node and distinct sibling names, two rows of names that lead from the root to one node are the same. |
| `NodeTree.ChildExactly` | src/kernel/vfs.c:67-80 | find_child finds the first child that bears the name and fails if and only if none does. |
| `NodeTree.FindExactly` | src/kernel/vfs.c:154-212 | With distinct sibling names, a lookup of a canonical path finds a node if and only if its names lead there through directories, child by child. |
| `NodeTree.FoundExactly` | src/kernel/vfs.c:154-212 | A lookup of any path, with dots and repeated slashes, fails if and only if some component on the way is not looked up in a directory or the names then on the stack lead to no node. |
| `NodeTree.SameMeaning` | src/kernel/vfs.c:154-212 | For every input that leads to a node from the working directory's node: the canonical path leads to that node from the root if and only if the length of the stack is the depth counted from the input, that is, if and only if no name was dropped for good. |
| `NodeTree.TooDeep` | src/kernel/vfs.c:755-759 | With 32 names on the stack a further one is silently lost: for every tree the built path leads to the parent of the node asked for. |
| `NodeTree.ScanComponent` | src/kernel/vfs.c:741-745 | The scan to the end of a component. |
| `NodeTree.Parse` | src/kernel/vfs.c:738-760 | The parsing loop resolves the components onto the stack. |
| `NodeTree.Output` | src/kernel/vfs.c:770-779 | The output loop renders the stack or refuses it for lack of room. |
| `NodeTree.BuildPath` | src/kernel/vfs.c:703-781 | vfs_build_path is the function the theorems are about. |
| `NodeTree.FindChild` | src/kernel/vfs.c:67-80 | The first child with that name, and failure if and only if there is none. |
| `NodeTree.FindRelative` | src/kernel/vfs.c:154-212 | vfs_find_relative is the walk the theorems are about. |

## Left out

- Connection set-up (LISTEN, SYN_SENT, SYN_RECEIVED), listeners, accept queues, ports and PCB lifetime; a connection starts in ESTABLISHED.
- TcpPcb.Pcb.Accept: is stated for a call nothing interferes with; under interference `TcpTheorems.StreamIsAccepted` says what the stream is.
- TcpPcb.Pcb.Send: likewise.
- TcpPcb.Pcb.Drain: likewise; each of its iterations is stated for every state (`TcpTheorems.FirstSend`, `DrainStops`).
- TcpPcb.Pcb.Resend: the per-segment send time and retransmit count, which nothing reads, are left out.
- TcpPcb.Pcb.FinWait1Input: bare acknowledgements sent in reply are left out; the wire log holds data, FIN and probe packets.
- TcpPcb.Pcb.Input: likewise.
- TcpPcb.Pcb.Tick: the keep-alive and delayed-ACK timers are left out.
- TcpConnection.Receiver.Segment: the bare acknowledgement in reply is left out.
- TcpConnection.Receiver.Read: the window-update acknowledgement is left out.
- TcpConnection.Connection.Input: the bare acknowledgement in reply is left out.
- TcpEndToEnd.EndToEnd: data or a FIN 2^32 positions or more away from what the receiver expects is taken not to arrive; sequence numbers could not tell it apart.
- Locks, interrupt masking, TLB shootdown and wait queues: critical sections are atomic.
- The IPv4 and Ethernet layers: packets handed down are a log, arrivals are arbitrary.
- Pmm: the packing of the bitmap into words is a sequence of booleans.
- Cow: the frame list each task keeps for its user pages and its release at exit; huge pages do not occur in user space.
- Cow.ForkSame: the child's page tables are taken to be allocated; `CloneNeeds.CloneTheorem` gives the exact condition on the free frames.
- CowKernel.Kernel.Clone: goes through page numbers rather than tables, with the same leaves in the same order; `CowClone.CloneTo` is the loop on the tables, without the counts.
- CowKernel.Kernel.WriteFault: `replace_current_task_frame`, which updates the task's frame list, is left out.
- Page tables: unmapping, and the identity mapping of low memory that makes tables readable.
- Heap.Allocator.Malloc: leaves out requests within the heap's range (plus a page and a header) of 2^64 whose wrapped sum passes the guard; for those `Heap.Allocator.Expand` says what the first expansion does, and `Heap.NeverReturns` shows that the loop need not end.
- Heap.Allocator.Free: a pointer into a payload whose bytes look like the header of an allocated block is not modelled; header fields are kept in a map by address, so writing a field touches no payload by construction while a new header clears the bytes it covers.
- Pages mapped by an expansion of the heap that fails half way are not tracked.
- Sector cache statistics, the NULL buffer checks and the multi-sector loops, which only repeat the single-sector calls.
- CacheLru.LruTheorem: stops one short of 2^64 accesses, where the access counter wraps.
- FAT16 I/O failures: every one makes the operation return early, so a run that reports full success had none; the cache below is `SectorCache`.
- FAT16 names, directory search, creation and unlinking, and `fat16_write_file`, which bypasses the cache.
- Fat16.Volume.Lengthen: stands for the same loop in both `resize_chain_unlocked` and `ensure_chain_capacity`.
- Task creation and slot reuse, sleeping and other CPUs; `Scheduling.BoundedWaiting` allows any change between ticks.
- TaskTable.Scheduler.TerminateTask: closing the task's descriptors, and the wake-ups that causes, are left out; `DescriptorRuns.CloseFromKeeps` is the closing.
- Pipes.Pipe.Write: the SIGPIPE sent to the writer of a broken pipe and the sleeps and wake-ups are left out.
- DescriptorRuns.MakePipeKeeps: begins once the five blocks of sys_pipe are allocated; before that a failure frees what was had and changes nothing here.
- Descriptor offsets, flags and file locks; descriptions are numbered and numbers are not reused; `ref_count` is unbounded, being at most the number of slots and holds.
- Mount points, symbolic links and permissions in path lookup; node names are compared whole.
- Video, input, network card, PCI and ATA drivers, the shell and user programs.
