# An AF_XDP socket, its packet classifier and its bytecode, verified

This project models three parts of an AF_XDP packet receiver and proves how they behave on every input and every run.

**The socket** (`dumpframes/xdp.go`, `dumpframes/src/dumpframes.go`). Four single-producer single-consumer rings are shared
with the kernel through wrapping 32-bit counters masked with `N-1`. A frame allocator and two counters of outstanding frames
sit above them.

- Fill/Rx and Tx/Completion are the same protocol, so it is modelled once, as a *flow*: a ring to the kernel (`out`), a ring
  back (`back`), the free flags and the counter. `Flows` is the state machine: the user takes one shared-memory access at a
  time, the kernel steps at any moment, gives frames back in any order, and may move its counters as late as it likes.
- `Invariant` relates the memory to two unbounded logs (`Ideal`). `Refinement` shows that every step keeps that relation.
  `Safety` states what follows for every run in terms of the memory itself. `Hazards`, `Batches` and `Exclusion` hold the
  counterexamples and the exact conditions under which calls do what they should.
- `Lanes`, `Sockets` and `DumpFrames` are the code: classes over arrays whose loops run with kernel steps between any two
  shared-memory accesses (after a slot count such a step commutes with the load that follows). A lane records the run of the machine that it performs, so everything in `Safety` holds of it at
  every point, and the socket records its calls of `Poll` and `GetFrame` with their positions in those runs. `Traces` speaks of
  the state at a position, and `Turns` states the loop's guarantees on such states. `Words`, `Rings`, `Effects` and `Allocation`
  hold the arithmetic, the single ring, the effect predicates and the allocator; `Wrappers` holds the option type.

**The classifier** (`dumpframes/src/ebpf/tcp_syn_kern.h`, the two `tcp_syn_kern.c`). `Packets` reads a packet declaratively,
`Parser` is the cursor code, proved equal to that reading for either byte order (`Endian`), and `Codec` is an encoder whose
image is exactly what the code takes for TCP.

**The default program and its maps** (`dumpframes/program.go`). `Bytecode` interprets the instruction list and proves that it
refines a three-line function. `QueueMaps` and `Programs` treat `Register` and `Unregister` as runs of map operations that may
fail and overlap. `Agreement` compares the three XDP programs.

## Hypotheses

- Ring sizes are powers of two, at most 2^31; `FillRingNumDescs <= NumFrames`; `FrameSize > 0`; Rx and Tx rings both exist;
  the umem is smaller than the machine's integers, so addresses and the two counters do not overflow.
- Memory is sequentially consistent: the fences in the code are commented out (`dumpframes/xdp.go:413`, `431`, `437`).
- The caller submits descriptors of distinct free frames of the flow's partition (`Acquired`), which is what `GetDescs` and
  `Receive` return; `SubmitExactly` shows that this is exactly what the calls need. `Complete(n)` is called with
  `0 <= n <= NumCompleted()`, as `Poll` does; `CompleteExactly` shows that this bound is exact.
- The kernel hands back only frames it holds, with received data inside its frame. It may give an `out` slot back late, except
  where a statement says `prompt`: then it never has more frames published than slots given back, however far ahead it takes them.

## Where the code and its documentation differ

- The comment on `Complete` says "up to n", but `n` is not clamped (`dumpframes/xdp.go:629-647`): see `CompleteExactly`.
- The comments on `NumFilled` and `NumTransmitted` describe ring occupancy (`dumpframes/xdp.go:711-731`); the code counts
  submitted minus received or completed frames, which is what `Conservation` states.
- The echo example (`dumpframes/xdp.go:83-99`) transmits received frames; `EchoSharesFrame` ends with one frame on the Fill
  ring and on the Tx ring at once. `TransmitExcludes` says exactly which calls keep the two free lists exclusive.
- That the dumpframes loop keeps every receive frame in flight needs a prompt kernel, which nothing in the repository promises:
  `LateKernelStarves` is a run in which all frames are free and no Fill slot is. `Refill` and `Loop` say for any kernel exactly when
  all frames are in flight and when `Poll` returns early, and `FreeFramesFit` what that means for the history.
- A `Register` that returns an error may still have replaced the socket of an enabled queue: see `RegisterServes`.
- The safe order of map updates holds for overlapping calls too, unless a `Register` and an `Unregister` of one queue overlap:
  see `LegalIffEndsSafely` for the exact statement and `OverlapReachable` for a run.

## Model

| member | source | states |
|---|---|---|
| `Words.MaskIsMod` | dumpframes/xdp.go:409 | The index mask `x & (N-1)`, computed bit by bit, is `x mod N` for every power of two. |
| `Rings.SlotOfTotal` | dumpframes/xdp.go:409-410 | The masked 32-bit counter selects the slot of the true, unbounded counter, however often it wrapped. |
| `Rings.NumFreeExact` | dumpframes/xdp.go:652-663 | The free-slot arithmetic is exact across wrap-around and its clamp never fires. |
| `Rings.NumPendingExact` | dumpframes/xdp.go:682-693 | The pending-slot arithmetic is exact across wrap-around and its clamp never fires. |
| `Rings.WriteSlot` | dumpframes/xdp.go:407-411 | Writing at the local producer appends to the ring's log; the slot differs from that of every item not given back. |
| `Rings.ReadSlot` | dumpframes/xdp.go:430-434 | Reading any item not yet given back yields the value that was written, at its place in the order. |
| `Rings.CursorMeets` | dumpframes/xdp.go:430-438 | Wrapped cursors are equal exactly when the true ones are. |
| `Refinement.StepRefines` | dumpframes/xdp.go:401-466 | Every step of the user and of the kernel keeps the invariant (memory refines the logs, one place per frame, counters, meaning of local variables) and cannot index out of range. |
| `Refinement.StepIsIdealMove` | dumpframes/xdp.go:401-466 | Every step is a move of two unbounded FIFO queues in which no cursor overtakes another. |
| `Safety.RunRefines` | dumpframes/xdp.go:401-466 | After every run, of any length and interleaving, the memory refines the two unbounded queues. |
| `Safety.NeverPanics` | dumpframes/xdp.go:409-411 | No ring or flag index in the four operations is out of range in any reachable state. |
| `Safety.QueuesInMemory` | dumpframes/xdp.go:407-443 | What lies in memory between the cursors of a ring is exactly the unread part of its log. |
| `Safety.FrameOwnership` | dumpframes/xdp.go:401-466 | In every reachable state each frame is in exactly one of {free, out ring, held by the kernel, back ring}, once; only partition frames are ever in use. |
| `Safety.Conservation` | dumpframes/xdp.go:416-464 | Between calls the outstanding counter is the number of frames on the two rings and with the kernel, equals the number of cleared flags, and stays within the partition. |
| `Safety.Fifo` | dumpframes/xdp.go:407-443 | Values leave each ring as a prefix of those that entered, in order, for any number of wrap-arounds; consumer counters are true totals mod 2^32; the rest is what lies in memory. |
| `Safety.CountsExact` | dumpframes/xdp.go:652-709 | The four `Num*` counts are exact in every reachable state. |
| `Safety.SubmitOverwritesNothing` | dumpframes/xdp.go:401-414 | In the middle of Fill or Transmit, however stale the snapshot, the slot written next is none that the kernel may still read and none written earlier in the call. |
| `Safety.KernelReadsPublished` | dumpframes/xdp.go:413-414 | The kernel never reads an unpublished slot, even while a batch is being written. |
| `Safety.CollectReadsPublished` | dumpframes/xdp.go:430-434 | Receive and Complete read only published slots. |
| `Safety.ReleaseAfterReading` | dumpframes/xdp.go:437-438 | The consumer counter stored is the number of slots read so far: slots are given back only after being read. |
| `Safety.KernelOverwritesNothing` | dumpframes/xdp.go:636-644 | No slot that the user has not given back is overwritten by the kernel. |
| `Safety.CollectedFrame` | dumpframes/xdp.go:432-436 | The frame collected next was in use until then, belongs to the partition, and its data lies inside it. |
| `Safety.KernelFindsRoom` | dumpframes/xdp.go:115-122 | With a back slot per partition frame, as in the defaults, the kernel can always hand a held frame back, with any data inside the frame. |
| `Safety.FreeFramesFit` | dumpframes/xdp.go:401-405 | All free frames fit on the out ring if and only if the slots the kernel has given back, with the ring's spare slots, cover the frames the user has collected. |
| `Safety.PromptKernelNeverTruncates` | dumpframes/xdp.go:401-405 | Under a kernel that has published no more frames than it has given slots back, there is always a free out slot for every free frame. |
| `Hazards.LateKernelStarves` | dumpframes/src/dumpframes.go:83-90 | A run after which every frame is free, nothing is outstanding and the Fill ring has no free slot. |
| `Hazards.EchoSharesFrame` | dumpframes/xdp.go:83-99 | A run of both sides in the order of the echo example (Fill, Receive, Transmit, Fill) after which one frame is on the Fill ring and on the Tx ring at once. |
| `Exclusion.TransmitExcludes` | dumpframes/xdp.go:449-466 | If the two free lists exclude each other, they still do after Transmit if and only if every descriptor sent is of the sending half. |
| `Exclusion.FillExcludes` | dumpframes/xdp.go:401-419 | Likewise for Fill and the receiving half. |
| `Exclusion.CollectExcludes` | dumpframes/xdp.go:423-443 | Receive and Complete keep the lists exclusive, whatever they collect. |
| `Exclusion.ListsExclusive` | dumpframes/xdp.go:538-573 | In every pair of runs, the lists exclude each other if and only if no frame of one half is on the rings or with the kernel on the other side. |
| `Exclusion.HalvesNeverMeet` | dumpframes/xdp.go:538-573 | When Fill and Transmit use their own halves, no frame is ever on both sides, in any pair of runs. |
| `Hazards.CompleteExactly` | dumpframes/xdp.go:635-647 | A `Complete(n)` that runs without interference leaves rings, flags and counter consistent if and only if `0 <= n <= NumCompleted()`; a kernel that publishes during the loop can make a larger `n` consistent. |
| `Batches.SubmitExactly` | dumpframes/xdp.go:401-466 | Fill and Transmit, given any descriptors and run without interference, leave rings, flags and counter consistent if and only if the batch put on the ring is of distinct free frames of the partition. |
| `Effects.FlagExact` | dumpframes/xdp.go:411 | A batch of flag updates changes exactly the flags of its frames. |
| `Allocation.FreeInExact` | dumpframes/xdp.go:562-570 | The allocator's scan lists a frame if and only if it is free and in the range. |
| `Allocation.FreeInAscends` | dumpframes/xdp.go:562-570 | It lists them in strictly ascending order. |
| `Allocation.FrameOfOffset` | dumpframes/xdp.go:435 | `Addr/FrameSize` recovers the frame after any offset inside it. |
| `Allocation.FramesDisjoint` | dumpframes/xdp.go:564-567 | Buffers of different frames do not overlap and lie inside the umem. |
| `Allocation.FreshAreAcquired` | dumpframes/xdp.go:562-570 | What the scan hands out meets the precondition of Fill and Transmit: distinct, free, of the right half. |
| `Allocation.SliceInside` | dumpframes/xdp.go:578-580 | A received descriptor names a slice inside one frame and inside the umem. |
| `Lanes.Lane.constructor` | dumpframes/xdp.go:383-392 | A new lane has all frames free, empty rings and nothing outstanding, and starts an empty run. |
| `Lanes.Lane.KernelRuns` | dumpframes/xdp.go:407-414 | Any number of kernel steps: they and only they extend the run, never touch what the user wrote, published or read, and only move the kernel's cursors forward. |
| `Traces.ClearIffFree` | dumpframes/xdp.go:401-466 | While only the kernel steps, a frame is off both rings and out of the kernel's hands at every position of the run exactly if it was free at the first. |
| `Lanes.Lane.NumFreeSlots` | dumpframes/xdp.go:652-679 | The count is exact when returned and at least what it was on entry, with the kernel stepping between the two loads. |
| `Lanes.Lane.NumPendingSlots` | dumpframes/xdp.go:682-709 | The count lies between the pending slots on entry and on return. |
| `Lanes.Lane.WriteOne` | dumpframes/xdp.go:408-412 | One loop turn: the slot value is appended, the frame's flag and no other is cleared. |
| `Lanes.Lane.ReadOne` | dumpframes/xdp.go:432-436 | One loop turn: the oldest unread item is read, its frame was in use and its flag and no other is set. |
| `Lanes.Lane.Submit` | dumpframes/xdp.go:401-419 | Fill and Transmit of such a batch: the first `count` descriptors enter the ring in order, exactly their flags are cleared, the counter grows by `count`, and `count` is all of them unless slots ran out. |
| `Lanes.Lane.Collect` | dumpframes/xdp.go:423-443 | Receive and Complete: the oldest pending items in order, exactly their flags are set, the counter falls by their number. |
| `Lanes.Lane.FreeIsUntouched` | dumpframes/xdp.go:401-466 | Between calls a flag is set if and only if its frame is on neither ring and not with the kernel. |
| `Lanes.Lane.FreeCount` | dumpframes/xdp.go:416-464 | Between calls the free frames of the partition number its size minus the counter. |
| `Lanes.Lane.Totals` | dumpframes/xdp.go:738-745 | Both consumer counters are the true totals mod 2^32. |
| `Sockets.Scan` | dumpframes/xdp.go:562-570 | The loop returns exactly the first `min(n, free)` free frames of the range, ascending. |
| `Sockets.HandedFits` | dumpframes/xdp.go:391-392 | `GetDescs` never returns more than its preallocated buffer holds. |
| `Sockets.HandedCountTx` | dumpframes/xdp.go:539-571 | For sending, the number handed out is the minimum of the number asked for, the capacities of both buffers and the number of free frames of the half. |
| `Sockets.HandedMaximal` | dumpframes/xdp.go:562-571 | If fewer are handed out than asked for and than the buffers hold, every free frame of the half is among them. |
| `Sockets.HandedFirst` | dumpframes/xdp.go:538-573 | Each descriptor is a whole free frame of its half, and the free frames below it are exactly those handed out before it. |
| `Sockets.HandedApart` | dumpframes/xdp.go:550-560 | Descriptors handed out for receiving and for sending never share a byte. |
| `Sockets.Socket.constructor` | dumpframes/xdp.go:383-394 | A new socket is valid, with rings of the sizes asked for, all frames free on both lists and nothing outstanding. |
| `Sockets.DefaultsFit` | dumpframes/xdp.go:115-122 | The default options give halves of 64 frames of 2048 bytes, are usable, and have the ring room that the no-overflow and no-truncation statements ask for. |
| `Sockets.Socket.QuietExcludes` | dumpframes/xdp.go:401-466 | When nothing is in flight for sending, the two free lists exclude each other. |
| `Sockets.Socket.GetDescs` | dumpframes/xdp.go:538-573 | Returns exactly the specified frames, which may then be submitted on the matching ring; no more than asked for or than the buffers hold, and short of these limits every free frame of the half. |
| `Sockets.Socket.Fill` | dumpframes/xdp.go:401-419 | `Submit` on the receive side: the addresses of the descriptors enter the Fill ring in order; the sending side sees only kernel steps; exclusive lists stay exclusive. |
| `Sockets.Socket.Transmit` | dumpframes/xdp.go:449-466 | `Submit` on the sending side: the descriptors enter the Tx ring in order, with address and length; the receive side sees only kernel steps; exclusive lists stay exclusive if and only if the frames sent are of the sending half. |
| `Sockets.Socket.Receive` | dumpframes/xdp.go:423-443 | Returns the oldest received descriptors with the address and length found on the Rx ring, which may be filled again; at least `min(num, pending on entry)` of them. |
| `Sockets.Socket.Complete` | dumpframes/xdp.go:635-647 | Within its bound, frees exactly the `n` oldest completed frames. |
| `Sockets.Socket.NumFreeFillSlots` | dumpframes/xdp.go:652-663 | Exact number of free Fill slots at return. |
| `Sockets.Socket.NumFreeTxSlots` | dumpframes/xdp.go:668-679 | Exact number of free Tx slots at return. |
| `Sockets.Socket.NumReceived` | dumpframes/xdp.go:682-693 | Between the received count on entry and at return. |
| `Sockets.Socket.NumCompleted` | dumpframes/xdp.go:697-709 | Between the completed count on entry and at return. |
| `Sockets.Socket.TransmitFresh` | dumpframes/xdp.go:449-466 | `Transmit(GetDescs(n, false))` submits every descriptor handed out, given a prompt kernel and a Tx slot per frame that may be sent, and keeps exclusive lists exclusive. |
| `Sockets.Socket.FillFresh` | dumpframes/xdp.go:401-419 | `Fill(GetDescs(n, true))` submits every descriptor handed out, given a prompt kernel. |
| `Sockets.Socket.Poll` | dumpframes/xdp.go:506-534 | The kernel is asked if and only if frames are outstanding; otherwise nothing happens; unless the system call fails, every completion pending on entry is collected and the received count covers all frames pending on entry; it can be received in full. The call is recorded with its positions in the two runs. |
| `Sockets.Socket.GetFrame` | dumpframes/xdp.go:578-580 | The slice is in range exactly when the descriptor lies inside the umem, and is then the bytes it names; the call is recorded with its positions. |
| `Sockets.Socket.Stats` | dumpframes/xdp.go:738-745 | The four counters are the true totals of released, received, sent and completed items mod 2^32. |
| `DumpFrames.Refill` | dumpframes/src/dumpframes.go:84-91 | After the head of the loop all `FillRingNumDescs` receive frames are in flight if and only if the free slots in the state where they were counted covered the free frames; with a prompt kernel they always do. |
| `DumpFrames.NoneLeaked` | dumpframes/src/dumpframes.go:84-97 | When the counter is `FillRingNumDescs`, every receive frame is on a ring or with the kernel: none is leaked. |
| `DumpFrames.ReadFrame` | dumpframes/src/dumpframes.go:108-110 | From the call of GetFrame to the end of its use, at every position of the run, the frame is on neither receive ring and not with the kernel for receiving; it is clear of the sending side throughout exactly when its sending flag is set; the slice is inside one frame. |
| `DumpFrames.ReadFrames` | dumpframes/src/dumpframes.go:108-119 | GetFrame is called for every frame of one Receive, in order, with only the kernel stepping; each frame is clear from the return of Receive to the end, on both sides if the lists are exclusive. |
| `DumpFrames.Await` | dumpframes/src/dumpframes.go:84-101 | Refill and Poll: in the state at the call of Poll all receive frames are outstanding exactly when, in the state where slots were counted, each free frame had one; Poll returns early exactly when in those states nothing is outstanding on either side and no Fill slot was free; never with a prompt kernel. |
| `DumpFrames.Round` | dumpframes/src/dumpframes.go:83-120 | One turn: one call of Poll, for which that holds; exactly the reported number of oldest frames is read, each clear while it is read; without a failure all that was published in the state at Poll has been read in the state at the end of the turn. |
| `DumpFrames.Loop` | dumpframes/src/dumpframes.go:83-121 | For any number of turns: that of every recorded call of Poll and of GetFrame, on the states of the final runs; the byte ranges printed are exactly those of the descriptors received, each once and in order; a client that sends nothing, as here, stays so, which supplies the exclusive lists. |
| `Endian.Swab16Swaps` | dumpframes/src/ebpf/include/bpf/bpf_endian.h:13-17 | The 16-bit macro, under integer promotion and its cast, exchanges the two bytes of the number and undoes itself. |
| `Endian.Swab32Reverses` | dumpframes/src/ebpf/include/bpf/bpf_endian.h:19-23 | The 32-bit macro reverses the bytes and undoes itself. |
| `Endian.Swab64Reverses` | dumpframes/src/ebpf/include/bpf/bpf_endian.h:25-33 | The 64-bit macro reverses the bytes and undoes itself. |
| `Endian.HtonsIsSwab` | dumpframes/src/ebpf/include/bpf/bpf_endian.h:50-54 | On a little-endian machine `bpf_htons` of any 16-bit value is the macro's value. |
| `Endian.HtonsSpells` | dumpframes/src/ebpf/include/bpf/bpf_endian.h:50-85 | On either byte order, comparing a loaded field with `bpf_htons(c)` asks whether its bytes spell `c`, and `bpf_ntohs` of it is the spelled number. |
| `Packets.ClassUnique` | dumpframes/src/ebpf/tcp_syn_kern.c:62-102 | The declarative reading of a packet is unique. |
| `Packets.ClassOf` | dumpframes/src/ebpf/tcp_syn_kern.c:62-102 | Every byte string has such a reading. |
| `Parser.FieldIs` | dumpframes/src/ebpf/tcp_syn_kern.h:51-55 | Field comparisons do not depend on the byte order. |
| `Parser.ParseEthHdr` | dumpframes/src/ebpf/tcp_syn_kern.h:62-113 | Fails exactly on a short header; else advances by 14+4k for the one k (at most two) that the tags determine, inside the packet, and returns the last EtherType. |
| `Parser.ParseIpHdr` | dumpframes/src/ebpf/tcp_syn_kern.h:115-138 | Succeeds exactly on an IPv4 header that fits, returns its protocol and advances by 4*ihl, 20 to 60; a failure moves nothing. |
| `Parser.ParseIp6Hdr` | dumpframes/src/ebpf/tcp_syn_kern.h:140-153 | Succeeds exactly when 40 bytes fit, returns the next header and advances by 40. |
| `Parser.ParseTcpHdr` | dumpframes/src/ebpf/tcp_syn_kern.h:175-198 | Succeeds exactly on a TCP header that fits and advances by 4*doff, 20 to 60. |
| `Parser.Classify` | dumpframes/src/ebpf/tcp_syn_kern.c:62-102 | The parser chain yields the declarative reading, for either byte order. |
| `Parser.XdpSockProg` | dumpframes/src/ebpf/tcp_syn_kern.c:37-110 | The verdict is the declarative one on every packet, queue index, map state and byte order: exactly when it is 0 (abort), 2 (pass) and 4 (redirect), in terms of the packet's class. |
| `Parser.PerfEventTest` | perf_event/src/ebpf/tcp_syn_kern.c:19-83 | Likewise for the event program: exactly when its verdict is 0 and 2, when it tries to output a record and when one is written. |
| `Codec.EncodedIsTcp` | dumpframes/src/ebpf/tcp_syn_kern.h:62-153 | For any tags, options, addresses and payload the parser chain recovers TCP and the encoded port. |
| `Codec.Decoded` | dumpframes/src/ebpf/tcp_syn_kern.h:62-198 | Every packet read as TCP is the encoding of a well-formed packet with that port. |
| `Codec.TcpIffEncoded` | dumpframes/src/ebpf/tcp_syn_kern.h:62-198 | A packet is read as TCP to a port if and only if it is such an encoding. |
| `Codec.LeadsIffEncoded` | dumpframes/src/ebpf/tcp_syn_kern.h:62-153 | The parsers reach TCP at an offset if and only if the bytes before it encode Ethernet, tags and an IP header for TCP. |
| `Codec.OthersIffEncoded` | dumpframes/src/ebpf/tcp_syn_kern.c:62-93 | A packet is read as too short, as not TCP, or as broken TCP if and only if it is below 14 bytes, starts with no encoded headers, or starts with encoded headers followed by no TCP header. |
| `Codec.RedirectIffKnock` | dumpframes/src/ebpf/tcp_syn_kern.c:102-106 | A packet is redirected if and only if it encodes TCP to port 7777 on an enabled queue with a socket. |
| `Bytecode.Assembled` | dumpframes/program.go:120-140 | The instruction list assembles to the 19 slots its comments number: only the two map loads take a second slot. |
| `Bytecode.RunAdd` | dumpframes/program.go:120-140 | Runs compose. |
| `Bytecode.ProgramRefines` | dumpframes/program.go:120-140 | For every queue index and map contents the program ends within 17 instructions, never reads an unset or clobbered register or an unwritten stack slot, and returns 0 on a lookup miss, 2 on a zero entry, else `redirect_map`. |
| `Bytecode.ProgramReturns` | dumpframes/program.go:120-140 | Exactly when the program returns 0, 2 and 4. |
| `QueueMaps.SafeIffHarmless` | dumpframes/program.go:35-55 | A single map operation keeps "enabled implies socket present" if and only if its guard holds. |
| `QueueMaps.RegisterServes` | dumpframes/program.go:35-44 | Success delivers the queue to the socket and changes no other queue; a failure changes deliveries if and only if an enabled queue got a different socket. |
| `QueueMaps.UnregisterStops` | dumpframes/program.go:47-55 | Deliveries stop on that queue alone, exactly when the first step succeeds; full success also removes the socket. |
| `QueueMaps.UnregisterUndoes` | dumpframes/program.go:35-55 | `Unregister` after `Register` restores the maps of an unused queue. |
| `QueueMaps.MoveKeepsMidway` | dumpframes/program.go:35-55 | Every map operation of every call keeps what calls under way rely on, until opposite calls on one queue meet. |
| `QueueMaps.AlwaysSafe` | dumpframes/program.go:35-55 | In every run of sequential or overlapping calls with any failures, every state between two map operations is safe, if no queue is ever being registered and unregistered at once. |
| `QueueMaps.SafeIffNoOverlap` | dumpframes/program.go:35-55 | The calls under way end safely in every order if and only if no queue is being registered and unregistered at once. |
| `QueueMaps.LegalIffEndsSafely` | dumpframes/program.go:35-55 | Over any interleaving: opposite calls stay apart throughout if and only if at each point every way of ending the calls under way is safe. |
| `QueueMaps.OverlapReachable` | dumpframes/program.go:35-55 | From empty maps, a run of two Registers and an Unregister that overlap, ending with an enabled queue without a socket. |
| `QueueMaps.SafeIffNoKnockDropped` | dumpframes/src/ebpf/tcp_syn_kern.c:102-106 | The maps are safe if and only if no packet to port 7777 is ever aborted. |
| `QueueMaps.SafeIffDefaultNeverDrops` | dumpframes/program.go:120-140 | The maps are safe if and only if the default program never aborts on a queue in range. |
| `QueueMaps.NeverDroppedForSocket` | dumpframes/src/ebpf/tcp_syn_kern.c:46-106 | At any point of such a run, packets are aborted exactly for being malformed (socket program) or for a queue out of range (default program). |
| `QueueMaps.RunsSafely` | dumpframes/program.go:35-55 | Every state visited by a program object's runs is safe. |
| `Programs.Program.Try` | dumpframes/program.go:36-48 | One map operation, which may fail: the maps follow the specified step and the run is extended. |
| `Programs.Program.Register` | dumpframes/program.go:35-44 | The maps become what the two-step specification says, with entry 1 and the socket's number stored under the queue's number modulo 2^32 and no other key changed, on success and on each failure; all states on the way are safe; success delivers to the socket. |
| `Programs.Program.Unregister` | dumpframes/program.go:47-55 | Likewise: entry 0 and no socket under that key; success stops delivery on the queue. |
| `Programs.SameQueue` | dumpframes/program.go:36-51 | Exactly the numbers that agree modulo 2^32 name the same queue. |
| `Agreement.RedirectBranch` | dumpframes/src/ebpf/tcp_syn_kern.c:102-106 | The verdict depends on the socket map if and only if the packet is TCP to port 7777 on an enabled queue. |
| `Agreement.DefaultAgrees` | dumpframes/program.go:120-140 | Where the socket program redirects, running the bytecode ends in the same verdict. |
| `Agreement.EmitsIffRedirects` | perf_event/src/ebpf/tcp_syn_kern.c:66-79 | On an enabled queue the redirect branch is taken exactly for the packets on which the event program tries to output a record, which is written if the output succeeds. |
| `Agreement.SameAborts` | perf_event/src/ebpf/tcp_syn_kern.c:35-62 | Both C programs abort on the same parse failures; apart from these only a missing socket aborts the socket program. |
| `Agreement.AgreeExactly` | dumpframes/program.go:120-140 | The exact condition under which the bytecode and the socket program give the same verdict on a packet. |

## Left out

- System calls and memory mapping of `NewSocket`, `Close`, the `sendto` loop of `Transmit` and `unix.Poll` itself; `Poll` takes
  the failure of the system call as a free choice. Only the initial state that `NewSocket` leaves is modelled.
- Hardware memory ordering, kernel liveness and timing, and the kernel's writes to the bytes of the umem.
- The buffers that `GetDescs` and `Receive` reuse between calls: the model returns sequences, so the aliasing of two results is
  not captured.
- Steps of the kernel on the other side during a call are placed at its end: the two sides share no ring, flag or counter, so
  their steps commute.
- Lanes.Lane.Submit: Fill and Transmit share one method, which stores an address or a descriptor as the ring's kind says; other
  batches than those of distinct free frames are treated in `Batches.SubmitExactly`.
- Lanes.Lane.Collect: Receive and Complete share one method; only Receive clamps its argument; other arguments of Complete are
  treated in `Hazards.CompleteExactly`.
- Sockets.Socket.Fill: the code takes any descriptors; the contract covers those of distinct free frames of the half, and
  `Batches.SubmitExactly` shows that for every other batch no consistent state results.
- Sockets.Socket.Transmit: likewise; received frames are covered when the sending range is created to start at frame 0.
- Sockets.Socket.Complete: the contract covers the bound that `Poll` keeps; `Hazards.CompleteExactly` shows that for every other
  argument no consistent state results.
- DumpFrames.Loop: the endless loop is modelled for any finite number of turns; decoding and printing of frames is left out.
- Parser.PerfEventTest: the outcome of the ring-buffer output is a parameter; the trace output is left out.
- QueueMaps.AlwaysSafe: the kernel's removal of a socket entry when the socket is closed is left out.
- Programs.Program.Try: whether a map operation succeeds is a free choice within the key range, so a kernel that refuses every
  deletion from an array map is covered as one that always fails.
- Bytecode.ProgramRefines: only the instructions of the program have a meaning; all others fault. Map references are compared
  by file descriptor.
- VLAN id collection and `parse_udphdr`: used by neither program.
- Attaching and detaching over netlink, `LoadProgram`, `Program.Close`, the generated loaders, and the copies of the socket and
  parser under `perf_event`.
