# sfc7120 driver: a verified model

The repository is a FreeBSD/CheriBSD driver for the Solarflare SFC9120 NIC together with a
user library that maps the NIC's rings and drives them directly. This project models its
protocols in Dafny and proves what they rest on.

| file | content |
|---|---|
| `Options.dfy`, `Rings.dfy` | an optional value; ring geometry; recovering an unbounded position from a 9-bit index |
| `EventQueue.dfy` | the event queue as a FIFO over every interleaving; batching |
| `Port.dfy`, `Hardware.dfy` | the NIC: DMA memory, its own unbounded history, its actions |
| `Driver.dfy` | the driver's single accesses and the invariant every one keeps; runs |
| `DirectPath.dfy`, `KernelPath.dfy` | `sfc7120_poll`/`rx_recv`/`tx_post` and the ioctls, on real arrays |
| `Interrupt.dfy` | the interrupt handler and the control event queue |
| `Sessions.dfy` | agreement of kernel and NIC across sessions |
| `PingPong.dfy`, `Throughput.dfy`, `Simulation.dfy` | the benchmark's two-port systems in numbers, and how a port simulates their sides |
| `RallyPorts.dfy`, `ThroughputPorts.dfy` | the same systems on two real ports and a wire, step for step |
| `Mailbox.dfy`, `McdiExec.dfy`, `Backoff.dfy`, `Transport.dfy` | the MCDI mailbox, its exchange, its timing, its runs |
| `Capio.dfy`, `CapioSession.dfy` | CAPIO ownership and mapping; whole sessions, with the ring indices they carry |
| `Attach.dfy` | attach, teardown and detach against the firmware's resources |

## How the source is rendered

- Words are naturals below 2^64, `x & (2^k - 1)` is `x % 2^k`, shifts are `/`, an OR of
  disjoint fields is `+`. Positions are unbounded; the mod-512 indices, the 16-bit completion
  counter, the 4-bit MCDI sequence number and the 14-bit byte counts are written out.
- The NIC is a set of single actions (receive, send, report, notify). In run lemmas they
  interleave with single driver accesses; in the class methods an arbitrary `agenda` of bursts
  acts before every slot the driver looks at. Likewise an arbitrary `script` rewrites the MCDI
  mailbox before every look at it.
- Assumed of the NIC: at most 511 unacknowledged events, no event equal to a marker word, RX
  bytes as announced, bus addresses below 2^48. Assumed of the host: little-endian, the three
  DMA rings and two buffers do not alias. The NIC of the model acts on no descriptor whose bits 63:62
  are set.
- Locks, cache syncs and register writes are atomic; `copyin`/`copyout`, allocation, `open` and
  the like are success/failure inputs. A failing `copyin` leaves the TX slot as it was.
- In `Attach.dfy` a command may be refused or may work, and either may be reported as the other; what
  earlier loads left in the firmware is arbitrary but well-formed. A command is in order if the firmware
  allows it and the host is ready for it: no teardown while the interrupt is wired or the device node
  exists, no detach of the function before its resources are returned.
- CAPIO sealing is an abstract injective operation: unsealing something not sealed with the key
  never yields the holder's capability. Calls are sequential. The driver's flags in `Attach.dfy`
  are grouped in two records.

## Where the code does less than it seems to

Each of these is proved with the exact condition under which the code is right.

- `sfc7120_tx_post` and `SFC7120_TX` have no ring-full check: right exactly below 511 unsent frames
  (`SubmitSafeIff`, `UserIf.TxPost`, `Softc.Tx`); the benchmark stays below for every run exactly when
  window times sizes is below 512 (`WindowSafeIff`).
- `sfc7120_rx_recv` re-posts the slot at `rx_head` whether or not a packet is in it: the RX ring stays
  right exactly if one is (`RecycleRingIff`, `UserIf.RxRecv`). A consumed RX event not yet paid for shows
  a caller that this is so; taking a packet before its event comes to the same in the end (`RecycleEarly`).
- `SFC7120_TX` matches completions modulo 512: exact for completions less than a lap old
  (`MatchExactIff`); a sound port on which it goes wrong is `StaleCompletionAnswers`. It discards RX
  events it walks past: on success slots stay paired exactly when none was unread on entry and none
  came in ahead of the completion (`Softc.Tx`). A failing `copyout` in `SFC7120_RX` loses a slot
  (`Softc.Rx`).
- A session that worked through the ioctls and then touched the mapped path writes stale indices back,
  unless the ioctls moved each position by whole laps (`MixedSessionAgreesIff`). With one transmission
  the next session's frame is never sent (`MixedSessionLosesFrame`). A session that leaves an RX event
  without its slot recycled leaves `rx_head` behind (`PairedAtOpenIff`).
- `init_evq` for the data queue rewinds the control queue's pointer: the handler goes on seeing every
  event in order exactly if whole laps had been consumed (`SecondInitFifoIff`); otherwise it is deaf for
  good exactly if one event of the lap had been, and else may hand out events out of order
  (`SecondInitDeafIff`).
- An MCDI error reply without a code returns 0 (`ZeroRcIff`). The 252-byte guard fits the mailbox
  (sfc7120_mcdi.c:301) for a v1 header only: longer v2 requests are written past it (`RequestFitsIff`), and
  of longer v2 replies the last bytes are read from behind it (`MailboxOnlyIff`, `OverreadInput`).
- A reply is told from the current one only modulo 16 (`AcceptedIff`, `SixteenLateIsAccepted`).
- `>=` and `>` in the two backoff loops differ exactly for timeouts that a poll hits to the
  microsecond (`AgreeIff`).
- The revoke loop keeps only the last deletion's verdict (`VerdictTruthfulIff`). An unload that starts
  while an mmap allocates leaves the object alive, although the comment says it is released
  (`RefusedMmapCleanIff`). A zero-length mmap of an unknown region would raise the device flag for
  nothing (`MmapInvIff`).
- CAPIO tokens are not tied to a session (`StaleTokenIff`), and `sfc7120_init` does not reset `cap_req`,
  so a failed init spares the holder only if what it has left in `sealed_cap` is not the holder's
  token (`OutsiderDestroys`).
- A failure inside `sfc7120_hw_init` leaves VIs and vAdaptor allocated once they were granted, and the
  driver attached if the assertion query failed, whose label skips the detach (`LeakIff`). A later load
  gets over that exactly if its reset is permitted (`AttachesIff`, `LeakThenFail`). A command that took
  effect but was reported as failed is never undone, and one that had none but was reported as done is
  believed: a load attaches without a TX queue exactly if that happens to INIT_TXQ, and fails, leaving
  nothing but teardown commands out of order, if it happens to another (`Adapter.AttachAll`).

## Model

| member | source | states |
|---|---|---|
| Rings.RecoverExactIff | sfc7120.c:1446-1453 | an index register names the right position exactly inside a window of 512, otherwise a lap is lost |
| EventQueue.TakeExact | userlib/sfc7120_user.c:313-341 | the in-band marker test answers exactly "is anything unread", and yields the oldest unread event; invariant kept |
| EventQueue.AckExact | userlib/sfc7120_user.c:343-351 | the 9-bit doorbell tells the NIC the driver's unbounded consumed count |
| EventQueue.WriteInv | sfc7120.c:248-265 | a NIC write below 511 unacknowledged events overwrites no unread event |
| EventQueue.RunIsFifo | userlib/sfc7120_user.c:296-354 | over every interleaving the events handed out are exactly the first events the NIC wrote, in order |
| EventQueue.RunNeverMisses | userlib/sfc7120_user.c:296-354 | in every reachable state a look finds nothing exactly when nothing is unread; no stale re-read across laps |
| EventQueue.DrainTakesPrefix | userlib/sfc7120_user.c:313-341 | a drain returns min(max, unread) events, the oldest |
| EventQueue.PollSplits | userlib/sfc7120_user.c:313-351 | two polls equal one with the budgets added: events, ring, pointer, doorbell |
| EventQueue.PollAllIsPoll | userlib/sfc7120_user.c:313-351 | a schedule of polls equals a single poll of the summed budget |
| EventQueue.SpinStopsAtRx | sfc7120.c:1205-1235 | a handler call ends at the first RX event, on an empty ring or out of tries |
| EventQueue.HandleAllIsPoll | sfc7120.c:1205-1244 | a sequence of handler calls, each ringing the doorbell once, equals one poll of what they consume |
| EventQueue.BatchIndependence | sfc7120.c:1205-1244 | any schedule of polls and any sequence of handler calls that consume as much give the same events, ring, read pointer and doorbell |
| Port.DescriptorRoundTrip | sfc7120.c:383-390 | count and address come back from a descriptor word exactly when they fit 14 and 48 bits; TYPE and CONT, bits 63 and 62, are clear whether or not they do |
| Port.EventCode | userlib/sfc7120_user.c:320-334 | bits 63:60 tell RX, TX and other events apart, and the byte count and index fields below do not depend on them |
| Port.LengthFieldIff | userlib/sfc7120_user.c:385-398 | the frame length is bytes 8 and 9 of the prefix, little-endian |
| Port.ReceiveKeepsRx | sfc7120.c:361-401 | the NIC, following descriptors and only ones with bits 63:62 clear, writes an arrival into the slot its position names, over no unreceived packet |
| Port.SendKeepsTx | userlib/sfc7120_user.c:458-478 | what the NIC fetches for the next descriptor, whose bits 63:62 it finds clear, is the frame posted there |
| Port.ActInv | sfc7120.c:361-401 | every device action keeps the port invariant and only adds to the device's history |
| Port.ActFresh | sfc7120.c:1104-1119 | the device never makes an unread completion a lap old |
| Hardware.Nic.Perform | sfc7120.c:361-401 | a device action on the arrays is the action on values |
| Hardware.Nic.Runs | sfc7120.c:361-401 | any burst keeps the arrays sound and the driver's share untouched |
| Driver.LookExact | userlib/sfc7120_user.c:313-318 | the word at the read pointer is the oldest unread event's, a marker exactly if there is none |
| Driver.RecycleGood | userlib/sfc7120_user.c:400-424 | re-posting a slot advances the NIC's producer by exactly one on every lap, slot 511 included |
| Driver.RxOwnership | userlib/sfc7120_user.c:371-427 | producer = consumed + 511; the slot being copied is never the NIC's; every descriptor names its own slot |
| Driver.FrameExact | userlib/sfc7120_user.c:385-398 | what is copied out of a slot is the packet's frame, with the prefix length or in cut-through mode |
| Driver.SubmitSafeIff | userlib/sfc7120_user.c:439-482 | posting without a full check is sound exactly below 511 unsent frames |
| Driver.SubmitWraps | userlib/sfc7120_user.c:439-482 | the 512th unsent frame makes the NIC believe its ring is empty |
| Driver.RecycleRingIff | userlib/sfc7120_user.c:400-424 | re-posting a slot keeps the RX ring right exactly if a packet has arrived in it; otherwise it takes every RX descriptor from the NIC |
| Driver.RecycleEarly | userlib/sfc7120_user.c:400-424 | re-posting before the packet's event is consumed and after it come to the same state |
| Driver.SeededGood | sfc7120.c:361-401 | the seeded state is sound whatever the rings held |
| Driver.NextInv | userlib/sfc7120_user.c:296-482 | each device action and each driver access keeps port, indices and the pairing of events with slots |
| Driver.RunDelivers | userlib/sfc7120_user.c:296-482 | over every run frames received are the frames arrived, in order, once; the wire carries the frames posted; advertised producer is consumed + 511 |
| DirectPath.UserIf.Poll | userlib/sfc7120_user.c:296-354 | whatever the NIC does meanwhile: the oldest unread events in order, decoded as meant; short only when nothing is unread; acknowledged iff any |
| DirectPath.UserIf.Drain | userlib/sfc7120_user.c:313-341 | the loop of poll against the NIC's log |
| DirectPath.UserIf.RxRecv | userlib/sfc7120_user.c:371-427 | the slot goes back in any case, its descriptor word given number for number; the ring stays right iff a packet had arrived in it, and then the frame is the oldest unreceived one; an RX event owed is sufficient for the whole port |
| DirectPath.UserIf.TxPost | userlib/sfc7120_user.c:439-482 | refusals change nothing; an accepted frame is queued last, its descriptor word given number for number; sound afterwards iff fewer than 511 were unsent |
| KernelPath.MatchesIff | sfc7120.c:1105-1119 | masking the 16-bit counter compares absolute indices modulo 512 |
| KernelPath.MatchExactIff | sfc7120.c:1105-1119 | a match is this very descriptor exactly when the completion is less than a lap old |
| KernelPath.StaleCompletionAnswers | sfc7120.c:1089-1131 | a sound port on which the first look after a post ends the wait with success, the frame neither completed nor fetched |
| KernelPath.CompletionIsNew | sfc7120.c:1089-1131 | a completion of this very frame was logged during the call, so everything unread on entry was consumed before it |
| KernelPath.RefusalIff | sfc7120.c:987-1035 | a send is accepted iff its buffer is tagged and can be copied in, and the length is between 1 and 2048 and within the capability; which refusals give EPERM and which EINVAL |
| KernelPath.Softc.SeedRings | sfc7120.c:248-265 | priming and `post_rx_buffers` establish the seeded state |
| KernelPath.Softc.PostRxBuffers | sfc7120.c:361-401 | all 512 descriptor words, number for number, name their slots; 511 are advertised, rx_head 0 |
| KernelPath.Softc.GetViInfo | sfc7120.c:937-962 | the three pointers handed out are the kernel's own, and on a sound port the NIC's positions |
| KernelPath.Softc.SetEvqRptr | sfc7120.c:963-986 | range-checked: all three or none |
| KernelPath.Softc.Try | sfc7120.c:1089-1131 | one try of a poll loop: lets one burst of the device through, finds the oldest event exactly if one is unread, consumes it whatever it is |
| KernelPath.Softc.AwaitCompletion | sfc7120.c:1089-1131 | done iff the last event consumed passes the test, no other did; not done: all 10000 tries used and everything unread on entry consumed |
| KernelPath.Softc.Tx | sfc7120.c:987-1165 | refused iff so; slot and descriptor word number for number; success implies completion of this frame given no lap-old completion; a timeout, after 10000 tries, that no event consumed passed and none is left from before; tx_head moves on both; sound afterwards iff fewer than 511 were unsent; pairing kept iff no RX event was unread on entry or came in ahead of the completion |
| KernelPath.Softc.AwaitRx | sfc7120.c:1205-1235 | finds the RX event announcing the next arrival if one is unread on entry; not found: all 100000 tries used, none consumed |
| KernelPath.Softc.Rx | sfc7120.c:1166-1310 | the oldest unreceived frame, and the slot re-posted with its descriptor word number for number; a timeout only with no RX event unread on entry, after all 100000 tries; a failing copyout leaves one slot owed |
| Interrupt.LinkAfterLast | sfc7120.c:1385-1435 | link state is what the last LINKCHANGE consumed says |
| Interrupt.LinkAfterNone | sfc7120.c:1385-1435 | and unchanged without one |
| Interrupt.LinkChangeExact | sfc7120.c:1399-1418 | for an event composed of its eight fields, whatever they are: a change of link iff code 12 and subcode 4; up iff flag bit 0, full duplex iff bit 1, this flow control, the speed of this code |
| Interrupt.LinkAfterTells | sfc7120.c:1385-1435 | after any stretch of events the link shows the fields of the last word composed as a change of link, or is unchanged if no word is |
| Interrupt.SecondInitFifoIff | sfc7120_mcdi.c:1176-1177 | after resetting EVQ 0's pointer every run of the handler sees all events in order iff whole laps had been consumed |
| Interrupt.SecondInitDeafIff | sfc7120_mcdi.c:1176-1177 | otherwise it sees nothing in any run iff one event of the lap had been consumed |
| Interrupt.OutOfOrderRun | sfc7120_mcdi.c:1176-1177 | and with more than one, a run that hands out an event ahead of an older unread one |
| Interrupt.ControlQueue.Drain | sfc7120.c:1385-1444 | terminates with everything written consumed; the 512 cap never fires |
| Interrupt.ControlQueue.Interrupt | sfc7120.c:1361-1456 | no-op when dying or unarmed; else all consumed, the link showing the fields of the last change of link among them or unchanged, NIC told the exact count |
| Sessions.Seed | userlib/sfc7120_user.c:195-205 | a session starts with the kernel's three indices, so with the NIC's positions if the kernel has them |
| Sessions.Sync | userlib/sfc7120_user.c:524-533 | the kernel takes over the three user indices, if they are slots, exactly when the mapped path was used; after destroy it is right whichever path was |
| Sessions.NicAgreesIff | sfc7120.c:937-986 | the driver's three indices are right iff they are the NIC's own: TX producer, RX producer + 1, write position less the unread events |
| Sessions.SessionsAgree | sfc7120.c:937-986 | over any sequence of one-path sessions, at every start the kernel's indices are the NIC's and the first look finds the oldest unread event or a marker |
| Sessions.PairedAtOpenIff | sfc7120.c:937-986 | a session starts with rx_head at the slot of the next packet to be announced iff the one before closed without debt |
| Sessions.DisciplinedSessionsAgree | userlib/sfc7120_user.c:524-533 | with every session keeping events paired with slots, both hold at every start |
| Sessions.MixedSessionAgreesIff | userlib/sfc7120_user.c:511-533 | over runs: ioctls, then mapped accesses at the stale indices, then close; the kernel agrees with the NIC iff each position had moved by whole laps |
| Sessions.MixedSessionLosesFrame | userlib/sfc7120_user.c:511-533 | a run with one transmission and one empty poll after which the next session's frame is never sent |
| Simulation.CountsAct | userlib/bench.c:337-386 | each device action moves a port's counts as the throughput system's step does |
| Simulation.CountsDriver | userlib/bench.c:337-386 | so does each driver access |
| Simulation.CountsSafe | userlib/sfc7120_user.c:439-482 | a safe post there is one that keeps the port sound |
| Simulation.SideAct | userlib/bench.c:248-291 | each device action moves a port's side as the ping-pong system's step does |
| Simulation.SideDriver | userlib/bench.c:248-291 | so does each driver access |
| Simulation.DebtIsPending | userlib/bench.c:118-148 | a discarded RX event there is a debt of the port |
| ThroughputPorts.NextInv | userlib/bench.c:324-386 | two real ports and a lossless wire: each step keeps both ports sound and the numbers conserved |
| ThroughputPorts.NextFollows | userlib/bench.c:324-386 | each step of the ports is the step of Throughput it stands for, exactly when it is one: a look that finds an RX event, a frame sent or received, a receive, a post; nothing otherwise |
| ThroughputPorts.PortsStaySound | userlib/bench.c:324-386 | over every run below the bound no port is overrun, a frame on the wire finds a descriptor, and each port has received what the other sent, in order |
| ThroughputPorts.RoundTrip | userlib/bench.c:324-386 | over every run the frames themselves: what PF0 receives as its n-th frame is the n-th frame the host built, addresses swapped |
| ThroughputPorts.NextAnswers | userlib/bench.c:356-381 | each step keeps: PF0 has posted the host's frames in order; PF1 has posted the reflection of each frame it received, in order, but for those in hand |
| RallyPorts.HostFollows | userlib/bench.c:118-148 | each host step on the real ports is the step of PingPong |
| RallyPorts.NextFollows | userlib/bench.c:248-291 | each host step on the real ports is the host step of PingPong, each action a device takes its device step; doorbells and refused actions change nothing there |
| RallyPorts.NothingIsOwedAtASend | userlib/bench.c:248-291 | over every run of either path both real ports stay sound and at every send no slot is owed on either |
| PingPong.HostInv | userlib/bench.c:118-148 | each host step of either path keeps the one-frame invariant |
| PingPong.DeviceInv | userlib/bench.c:248-291 | each device or wire step keeps it |
| PingPong.NothingIsLost | userlib/bench.c:248-291 | over every run of either path: no RX event discarded, at most one unread per port, rx_head at the NIC's fill slot at every send |
| PingPong.RunInv | userlib/bench.c:406-465 | the same invariant over every run of the kernel throughput loop, where no TX wait eats an RX event |
| Throughput.InFlightIsWindowTimesSizes | userlib/bench.c:337-386 | frames in flight are the window times the sizes started, over every run |
| Throughput.BenchmarkIsSafe | userlib/bench.c:55-61 | at most 384 in flight; no TX overrun; an RX descriptor for every frame on the wire |
| Throughput.WindowSafeIff | userlib/bench.c:337-386 | for any window and sizes, all runs are safe iff window * sizes < 512 |
| Backoff.PollUntil | sfc7120_mcdi.c:621-673 | stops at the first answer or the first poll past the timeout, total below timeout + maximum |
| Backoff.RefPollUntil | ref_sfxge_mcdi.c:78-108 | the reference loop's counterpart |
| Backoff.AgreeIff | ref_sfxge_mcdi.c:78-108 | both give up at the same poll iff no poll falls exactly on the timeout |
| Backoff.TenSeconds | sfc7120_mcdi.c:225-227 | for 10 s both give up after 113 delays and 10,063,830 us, within 32 bits |
| Backoff.SameLoopAtTenSeconds | ref_sfxge_mcdi.c:78-108 | for every behaviour of the controller both end with the same verdict, after the same polls and delay |
| Transport.LateRepliesRejected | sfc7120_mcdi.c:616-729 | over every run: sequence number = sends mod 16, NOT_EPOCH clear exactly on the first; an accepted reply is the right one or at least 16 old |
| Transport.AcceptedIff | sfc7120_mcdi.c:688-695 | a late reply is accepted iff it is a multiple of 16 requests old |
| Transport.LeftoversCannotAnswer | sfc7120_mcdi.c:477-554 | after a send no poll can end before the MC writes |
| Transport.SixteenLateIsAccepted | sfc7120_mcdi.c:688-695 | a run in which a reply 16 requests late is accepted |
| Transport.NextInv | sfc7120_mcdi.c:960-965 | every step, a reboot included, keeps sequence number, epoch bit and history in step |
| Mailbox.RequestFitsIff | sfc7120_mcdi.c:602-604 | the guard keeps a request inside the mailbox exactly for v1, or v2 up to 248 bytes |
| Mailbox.FramedFrame | sfc7120_mcdi.c:250-268 | only the request's dwords change; tail padding is zero |
| Mailbox.DecodesTo | sfc7120_mcdi.c:477-522 | what the MC reads for any command, v1 and v2 told apart |
| Mailbox.FramingRoundTripIff | sfc7120_mcdi.c:477-522 | decode after frame is the identity iff the command fits 15 bits and the payload the mailbox |
| Mailbox.RequestBytes | sfc7120_mcdi.c:477-522 | the bytes of a request: command, length, sequence number with the epoch bit; from 0x7f on the escape and the real command and length behind it; then the payload |
| Mailbox.ReplyBytes | sfc7120_mcdi.c:678-705 | which bits of which byte of a reply are its sequence number, epoch, error and response bits and its length, in both framings |
| McdiExec.ReplyRcExact | sfc7120_mcdi.c:561-580 | what a caller gets for the bytes of a reply: 92 for another number, 0 without the error bit, and for an error reply its code where errno shares it, 35, 78, 60 and 45 for 11, 38, 62 and 95, else 5 |
| McdiExec.LooksRebootedIff | sfc7120_mcdi.c:930-948 | only silence, or an error reply with code 5, 62 or one not listed, is taken for a reboot; code 13 is EACCES and is not |
| McdiExec.MailboxOnlyIff | sfc7120_mcdi.c:708-717 | what is delivered depends on the mailbox alone iff the framing is v1 or at most 248 bytes are taken |
| McdiExec.OverreadInput | sfc7120_mcdi.c:708-717 | a reply whose last delivered byte is not the controller's |
| McdiExec.RequestTracks | sfc7120_mcdi.c:477-522 | the header sent is the one of the protocol's send step |
| McdiExec.RepliedTracks | sfc7120_mcdi.c:688-729 | a reply with the number of request i ends the exchange as in the protocol; accepted iff the numbers match |
| McdiExec.ZeroRcIff | sfc7120_mcdi.c:697-705 | a return of 0 for the right sequence number: no error bit, or an error without a code |
| McdiExec.Mcdi.WritePayload | sfc7120_mcdi.c:250-268 | the dword loop writes the bytes and zero padding, nothing else |
| McdiExec.Mcdi.ReadPayload | sfc7120_mcdi.c:270-284 | the dword loop reads exactly the bytes, partial tail included |
| McdiExec.Mcdi.SendLocked | sfc7120_mcdi.c:477-537 | the mailbox holds the framed request; response bit clear |
| McdiExec.Mcdi.AwaitResponse | sfc7120_mcdi.c:621-673 | ends with the first poll that finds the response bit, or at the backoff's last after exactly 10,063,830 us |
| McdiExec.WaitedIsBackoff | sfc7120_mcdi.c:621-673 | that wait is the backoff loop for this controller, at most 114 polls |
| McdiExec.Mcdi.TakeReply | sfc7120_mcdi.c:678-721 | out is the first min(resp_len, out_len) bytes and then zeros, all of them payload iff they lie in the mailbox; error and mismatch leave it alone |
| McdiExec.Mcdi.Exec | sfc7120_mcdi.c:586-729 | refusals change, send and read nothing; else one doorbell on the framed request, byte for byte, the wait above, the return code of the bytes of the reply, delivery from the mailbox as the last poll found it, one sequence number used, the epoch's opening closed; no write past the mailbox if the request fits; the protocol's send and timeout, or send, reply and poll |
| McdiExec.Mcdi.RebootAfterAssertion | sfc7120_mcdi.c:914-972 | command 0x3d with flag 1 is sent; a new epoch iff the MC was silent or replied with code 5, 62 or an unlisted one, and the register came back within 5000 reads, the protocol then being where a reboot puts it; code 13 is a success without one; else one number is used and the error passed on |
| Capio.CheckIff | capio.c:170-185 | comparing unsealed forms accepts exactly one value: the holder's token |
| Capio.StaleTokenIff | capio.c:269-287 | an earlier token is good again iff the new holder attached with the same capability |
| Capio.VerdictIff | capio.c:240-266 | a revoke reports an error iff the last region with an address failed |
| Capio.VerdictTruthfulIff | capio.c:240-266 | its return code tells whether all addresses were cleared iff the failures include that last one |
| Capio.RefusedMmapCleanIff | capio.c:439-447 | a refused mmap leaves no trace iff no unload started while it allocated |
| Capio.MmapCreatesIff | capio.c:313-455 | an mmap makes an object iff: a request, the holder's token, no capability permissions, offset 0, not dying, a tagged capability, the region's whole size (1 MiB, 4 KiB or BAR 2), not mapped, pager allocates; it succeeds iff besides no unload begins meanwhile |
| Capio.MmapInvIff | capio.c:362-366 | a new object keeps the invariant iff the size was not zero |
| Capio.Softc.CheckCapToken | capio.c:170-185 | as on values |
| Capio.Softc.SetCapToken | capio.c:269-287 | sets the token iff there is none and the capability is not null |
| Capio.Softc.RevokeCapToken | capio.c:230-267 | the loop clears every offset whose deletion worked, no length, and returns the last verdict |
| Capio.Softc.VaddrCallback | capio.c:54-81 | sets the first matching region's offset and length, else EINVAL |
| Capio.Softc.SliceLengthCallback | capio.c:83-109 | the first matching region's sizes, else zeros |
| Capio.Softc.PagerCtor | capio.c:457-475 | both flags up, for every entry of the kind |
| Capio.Softc.PagerDtor | capio.c:477-503 | region flag down; device flag down iff no region is left |
| Capio.Softc.MmapSingleExtra | capio.c:313-455 | all refusals in order; otherwise an object |
| Capio.Softc.IoctlHandler | capio.c:585-613 | every command but attach needs the token; dispatch to the driver exactly with it |
| Capio.StepInv | capio.c:313-503 | every call keeps: one live object per region exactly where mapped, device flag iff some region, lengths = get_buffer_size |
| Capio.RunInv | capio.c:269-503 | over every run, with the token's owner being who the replies say it is |
| Capio.RunExclusive | capio.c:585-613 | over every run: attach succeeds iff nobody holds; driver ioctl and goodbye pass iff they carry the holder's token; so does every successful mmap, on a region without object |
| CapioSession.HolderLeaves | userlib/sfc7120_user.c:484-554 | the holder's destroy gives up the token and unmaps exactly its regions |
| CapioSession.HolderDestroys | userlib/sfc7120_user.c:484-554 | and leaves no token, no flag, no offset, lengths intact |
| CapioSession.OutsiderDestroys | userlib/sfc7120_user.c:535-553 | a failed attacher's destroy spares the holder iff its leftover token is not the holder's and it is not the last descriptor |
| CapioSession.Node.Close | sfc7120.c:890-897 | only the last close revokes |
| CapioSession.Client.MapRegion | userlib/sfc7120_user.c:31-99 | maps one region or changes nothing; succeeds if nothing fails and the region is free |
| CapioSession.Client.SyncBack | sfc7120.c:963-986 | the write-back passes iff the token is the holder's and the indices are slots; the kernel then has exactly the user's |
| CapioSession.Client.Destroy | userlib/sfc7120_user.c:484-554 | munmap loop, sync, goodbye, close, as one function of the state; a holder that polled is still the holder when it syncs, so the kernel gets exactly its indices; nobody else's get through |
| CapioSession.Client.Init | userlib/sfc7120_user.c:101-221 | from a quiet device: success (certain if nothing outside fails) or quiet again, whichever step fails; on a held device: failure, holder untouched; seeded with the kernel's indices, which it leaves alone |
| CapioSession.MeantimeKeepsHold | capio.c:585-613 | no call by anybody takes the device from its holder, short of the last close or the holder's own goodbye |
| CapioSession.Session | userlib/sfc7120_user.c:484-554 | init, then any calls by anybody, then destroy: the device is quiet, so the next init can succeed, and the kernel has the indices of the path the session took |
| Attach.OutcomeIff | sfc7120.c:569-823 | a load fails at a step iff that step is bad and none before it |
| Attach.LeakIff | sfc7120.c:520-526 | what a failure inside hw_init leaves, exactly |
| Attach.AttachesIff | sfc7120_mcdi.c:806-818 | a load attaches iff its own steps go well and either the reset was permitted or the function held no VIs |
| Attach.Adapter.HwInit | sfc7120.c:403-526 | whatever the firmware holds: all resources, or exactly the residue of the failing step |
| Attach.Adapter.PollLink | sfc7120.c:503-516 | fails iff a poll reached within 30 fails |
| Attach.Adapter.ClearAssertions | sfc7120_mcdi.c:749-789 | fails iff the first reply that is no interruption is an error other than EACCES, or all three are interruptions |
| Attach.Adapter.AllocDma | sfc7120.c:230-317 | six buffers or none |
| Attach.Adapter.InitEv | sfc7120_mcdi.c:1081-1182 | in order; flag set iff reported |
| Attach.Adapter.FiniEv | sfc7120_mcdi.c:1351-1376 | flag survives only "busy"; in order iff nothing targets the queue |
| Attach.Adapter.HwTeardown | sfc7120.c:528-547 | with interrupt and device node gone and flags covering the firmware: nothing left, and every command in order iff they mirror it; a resource without flag stays |
| Attach.Adapter.Unwind | sfc7120.c:806-815 | the interrupt is gone before the first teardown command, and the firmware's queues before the first ring |
| Attach.Adapter.AttachAll | sfc7120.c:569-823 | whatever earlier loads left: the first bad step decides; past hw_init nothing stays iff no queue command went unreported, and all was in order, the vector there before the control queue and gone before any teardown, iff besides no success was hollow; everything is in place after attaching iff INIT_TXQ was not hollow |
| Attach.Adapter.Detach | sfc7120.c:825-878 | nothing stays; device node, then interrupt, then firmware, then rings; every command in order iff everything was in place |
| Attach.Loads | sfc7120.c:439-449 | over any sequence of loads with any failures: each attaches iff its steps go well and its reset is permitted or nothing before left VIs; what each leaves, exactly |
| Attach.LeakThenFail | sfc7120_mcdi.c:806-818 | two loads: one that leaks, one that fails only for that |

## Left out

- DirectPath.UserIf.CopyOut: where the length found in a slot leads past the slot, which needs a slot no packet was received into, the bytes copied are not modelled.
- CapioSession.Client.Init: takes one capability per malloc'ed page; capabilities without a tag are refused by the seal abstraction rather than modelled bit by bit.
- Attach.Adapter.Detach: assumes that FINI and FREE commands issued in order succeed; an MC reboot during teardown is not modelled.
- Attach.Adapter.AttachAll: assumes that firmware grants VIs only to a function without any.
- McdiExec.Mcdi.RebootAfterAssertion: an EIO that stands for an error reply and not for a reboot also opens a new epoch; what the controller makes of that is not modelled.
- A NULL `out` or `out_used` in an MCDI exchange; the model's `used` is 0 where the code leaves the caller's value, which every caller sets to 0.
- `bus_dma`, PCI configuration, MSI-X allocation, cache maintenance and register access beyond the doorbells: foreign calls, each an atomic step or an oracle.
- VM pager faults, fake pages, memory attributes, and CHERI bounds and permissions beyond the checks the handlers make.
- Races between CAPIO calls: the lock is dropped between steps in several of them; calls are taken as sequential.
- PHY, MAC, link and filter field packing, capability dumps, version and other logging.
- Timeouts of the benchmark, lost frames and overruns of its event queues; what the frames of the window-1 benchmarks hold, which may be any, and the fields `build_frame` fills in.
- The user library's test program, benchmark statistics and clocks.
- The kernel `poll` entry, `rx_task`, select wakeups; the alignment hint on RX doorbells.
