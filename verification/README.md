# AltoBeam Wi-Fi driver: a verified model of its buffers, queues and formats

This project models, in Dafny, the sequential core of the AltoBeam RTOS Wi-Fi driver and proves
what that code is for. `dafny verify dfyconfig.toml` checks it.

- **Receive reordering** (`hal/atbm_txrx.c`). A 64-slot ring of frames and time stamps, indexed by
  12-bit sequence numbers. `ReorderWindow` is the window over unbounded sequence numbers that the
  ring stands for; `ReorderSteps` is about one frame, one BlockAckReq, one timeout;
  `ReorderReceive` says what becomes of every frame, by its distance alone;
  `ReorderRuns` about whole runs, of frames of every kind and of sessions that start and end;
  `ReorderRing` is the class with the arrays and the wrapped counters, every method of which is
  proved to compute the function of the window model; `ReorderTimers` says what becomes of the
  registered timeouts; `ReorderSession` plays any run on the class; `ReorderStay` bounds how long a
  frame may stay.
- **Transmit queue** (`hal/atbm_queue.c`). A fixed pool over three lists, generation-stamped
  packet identifiers, redundant counters and flow control. `TxQueueModel` has the lists and
  identifiers, `TxQueueSteps` what each operation keeps, `TxQueueCounters` the counters,
  `TxQueueShared` the count that all queues of a device share, `TxQueueRuns` whole runs,
  `TxQueueTimer` the drop timeout over whole runs, `TxQueueAge` how long frames may wait, counted
  from the time they were put, `TxQueueStray` what an unexpected identifier
  does, `TxQueueExamples` two runs that go wrong, `TxQueue` the class, `TxQueueDevice` the queues of
  one device together.
- **Frame formats** (`net/atbm_util.c`, `hal/atbm_txrx.c`, `hal/atbm_skbuf.c`). `FrameFormat` says
  what a frame becomes on its way from one network stack to the other; `FrameBytes` writes the same
  frames out byte by byte, with the numbers of the standard; `PacketBuffer` is the byte
  array with its data window; `Conversion` is the in-place code with its overlapping copies;
  `AmsduFormat` and `Amsdu` split aggregated frames; `BuffList` is the circular list of buffers.
- **Elements** (`net/atbm_util.c`, `net/atbm_mgmt.c`). `Elements` parses information elements and
  copies those a fast reconnect needs; `Rates` writes and reads rate elements; `Tim` keeps the
  traffic indication map and writes its element.
- **Retry policy** (`net/atbm_rc80211_minstrel_ht.c`). `RetryOrder` orders, merges and
  cuts the rates of a transmission, `RetryLimit` is about lists with zero tries or too many,
  `RetryTable` packs the rates, `RetryPolicy` does all of it in place.

Places where the code does less than its comments or the standard promise, each with its exact
condition:

- Fragments and QoS null frames are passed up whatever their number, and frames 127 to 2047 ahead
  of the window are passed up without moving it. A frame keeps the order if and only if it is none
  of these (`OrderKeptIff`); whatever is handed back ahead of the window is overtaken by the frame
  the window waits for (`HandedBackOvertakes`; for instance `BypassOvertakes`,
  `FragmentOvertakes`). A BlockAckReq at distance exactly 0x800 is accepted, a frame at that
  distance is dropped (`HalfSpaceDiffers`).
- The handler releases a slot once half the session's timeout has passed, but runs when a whole one
  has, and starts the next from there. A frame may stay one and a half timeouts, and 64 times as
  much as a timeout is served late, but no longer (`StayBounded`; 299 of 300 in `LongStay`).
- Sending every waiting frame lets the drop timeout lapse, and neither requeue registers it again.
  Whatever waits has a timeout coming, all through a run, if and only if every frame is brought back
  while the timeout is registered (`RunArmedIff`). Otherwise it waits unlooked at until the next
  accepted put (`UnregisteredUntilPut`); both requeues do so in `ReturnUnarms`.
- A timeout of the transmit queue stops at the first frame that is younger than the time to live: it
  drops a frame if and only if none ahead of it is (`TimeoutDropsIff`). Without requeues those are
  exactly the frames that have waited for it (`TimeoutDropsAged`).
- A single requeue keeps every flow in order if and only if it returns the last sent item of its
  flow (`RequeueOrderedIff`); requeueing the first of two sent frames breaks it
  (`RequeueBreaksOrder`).
- A confirmed identifier is refused until its pool slot is reused, unless the item's eight-bit
  generation comes round, that is, after a multiple of 256 requeues (`RefusedIff`, `FullCircle`).
- The lookup compares neither interface nor link, nor whether the slot is in use. What it finds
  carries the identifier if and only if all of these agree (`FoundCarriesIdIff`; it does not in
  `ConfirmedFoundAgain` and `OtherInterfaceFound`). Requeue and remove act on whatever is found: the
  lists stay a partition, but lists and counters stay in agreement if and only if, for a requeue, the
  slot is pending and carries the identifier, and for a removal, the slot is pending and of the
  interface named (`RequeueFoundKeepsIff`, `RemoveFoundKeepsIff`).
- The timeout that finds an overfull queue half empty without having dropped anything knows no
  interface and leaves its lock behind. It may find one if and only if half the throttle is below
  half the capacity (`LockLostIff`, `Queue.Resume`); the driver sets both to 64.
- Inserting IV and ICV checks the room on both sides together. What passes the check fits the buffer
  if and only if the tailroom alone holds the ICV (`InsertCrypt`).
- A station's frame without an LLC header loses its destination address unless the overwriting
  bytes happen to spell it (`StationKeepsDestIff`, `LengthFrameLosesDest`).
- The header conversion in front of the A-MSDU loop takes eight bytes of the aggregate for an LLC
  header if and only if they look like one (`WrapperKeepsAggregateIff`,
  `BridgeTunnelDestIsMisread`), and then skips fourteen bytes, which goes past the frame's end if and
  only if the payload ends within what passes for its LLC header (`WrapperCutShortIff`,
  `ThreeBytePayload`).
- The A-MSDU loop reads eight bytes of every body, present or not. A delivered frame ends within
  its own Ethernet header if and only if its body has fewer than eight bytes and passes for an LLC
  header together with what lies behind it (`CutShortIff`, `ThreeByteBody`).
- A WMM element of exactly five bytes is parsed but not copied (`CopyKeepsMeaning`,
  `ShortWmmIsLost`).
- The pass that should sort the rates is a single exchange pass, and merging stops at the first
  index above the one before it. Every try is taken if and only if no index is higher than both
  its predecessor and the lowest before that (`PolicyTakesAllIff`); of three ascending indices the
  highest is lost (`AscendingLosesHighest`). (A higher index is mostly, not always, a faster rate:
  hal/atbm_main.c:85-86.) Of the tries that are taken, each rate's are added in eight bits
  (`MergedTries`, `MergedWraps`); none is lost if and only if each rate's fit (`MergedTotalIff`).

## Model

| member | source | states |
|---|---|---|
| `ReorderRuns.RunInOrder` | hal/atbm_txrx.c:242-464 | over any run of frames, BlockAckReqs, timeouts, ADDBAs and DELBAs whose events are orderly, the frames passed up have strictly increasing true sequence numbers, each arrived under its number, and the invariants hold at the end; orderly means that a session's frames are neither fragments nor QoS null frames and lie within 2048 of the window but not 127 or more ahead, that frames outside a session come in order, and that a session starts where the last one left off or later |
| `ReorderRuns.RunConserves` | hal/atbm_txrx.c:182-757 | over any run whatever, fragments, bypasses, timeouts and sessions that end included, each frame is counted exactly once among passed up, freed and still buffered |
| `ReorderRuns.ReceiveConserves` | hal/atbm_txrx.c:311-464 | a frame handed in is exactly one of passed up, freed, buffered, or returned to the caller, and a returned one leaves everything else alone |
| `ReorderRuns.BlockAckConserves` | hal/atbm_txrx.c:684-757 | a BlockAckReq only moves frames from the buffer to the upper layer |
| `ReorderRuns.StepConserves` | hal/atbm_txrx.c:182-757 | each event accounts for every frame: the one that arrives and those buffered end up passed up, freed or buffered, each once |
| `ReorderRuns.FreesCount` | hal/atbm_txrx.c:209-224 | dropping the whole buffer frees exactly what it holds |
| `ReorderRuns.TwelveBitsSuffice` | hal/atbm_txrx.c:360-377 | within 2048 of the window start the distance of the wrapped numbers is the true one, or marks the frame as old |
| `ReorderRuns.ReceiveSources` | hal/atbm_txrx.c:362-436 | whatever goes up or is buffered after a frame was buffered before, or is that frame under its own number |
| `ReorderRuns.StepInOrder` | hal/atbm_txrx.c:242-757 | one orderly event keeps the invariants, moves the window forward only, and passes up only numbers between what was reached and what is reached now |
| `ReorderRuns.StepSettles` | hal/atbm_txrx.c:164-757 | any event, orderly or not, keeps the window invariant, and none brings a time stamp from the future |
| `ReorderStay.StayBounded` | hal/atbm_txrx.c:261-464 | over any run that starts with nothing buffered and in which no timeout is served more than `late` late, every frame still buffered arrived no longer ago than one and a half session timeouts and 64 times `late` |
| `ReorderStay.StepWatched` | hal/atbm_txrx.c:296-757 | after any event one of the registered timeouts is due soon enough for every stamped slot, although the driver cancels and replaces them |
| `ReorderStay.StepInTime` | hal/atbm_txrx.c:296-757 | every timeout an event registers is due no earlier than a session timeout after the head was stamped, and no later than one from now |
| `ReorderStay.StepCancels` | hal/atbm_txrx.c:296-757 | an event that empties the buffer cancels every timeout; one that was a timeout only uses itself up |
| `ReorderStay.LongStay` | hal/atbm_txrx.c:261-306 | a run with every timeout served in time in which a frame stays 299 of the 300 milliseconds |
| `ReorderStay.ReceiveDescends` | hal/atbm_txrx.c:164-464 | a slot keeps its stamp as it moves, and a frame its slot, until it goes up |
| `ReorderSteps.ReceiveRests` | hal/atbm_txrx.c:362-464 | receiving any frame keeps the window invariant, stamps included, and releases in increasing order below the new start |
| `ReorderSteps.ReceiveOverflow` | hal/atbm_txrx.c:385-430 | so does the overflow case, which shifts the window until the frame fits |
| `ReorderReceive.ReceiveExact` | hal/atbm_txrx.c:356-436 | every frame, by its distance alone: 2048 or more ahead, or with its place taken, it is freed; 127 or more ahead, or awaited with nothing buffered, it goes back; any other goes into the window, which moves just far enough for it and then over the gapless run, and exactly the frames it leaves behind go up, in order |
| `ReorderReceive.OverflowExact` | hal/atbm_txrx.c:385-430 | so does the overflow case: the window moves just far enough for the frame to be its last |
| `ReorderReceive.DrainExact` | hal/atbm_txrx.c:242-259 | after a frame is buffered, exactly the numbers below the first missing one go up, and all others stay |
| `ReorderSteps.OrderKeptIff` | hal/atbm_txrx.c:335-397 | everything passed up stays below the window start if and only if the frame is neither a fragment nor a QoS null frame and not 127 to 2047 ahead, in twelve bits |
| `ReorderSteps.HandedBackOvertakes` | hal/atbm_txrx.c:335-397 | any frame handed back at or ahead of the window start is followed out of order by the frame the window waits for |
| `ReorderSteps.AwaitedGoesUp` | hal/atbm_txrx.c:362-436 | the frame the window waits for always goes up at once |
| `ReorderSteps.BypassOvertakes` | hal/atbm_txrx.c:392-397 | a run in which number 127 is passed up before number 0 |
| `ReorderSteps.FragmentOvertakes` | hal/atbm_txrx.c:335-338 | a run in which a fragment with number 5 is passed up before number 0 |
| `ReorderSteps.BlockAckExact` | hal/atbm_txrx.c:684-757 | an accepted BlockAckReq passes up, in order, exactly the frames before its number and those of the gapless run from it on, and the window then starts at exactly the first missing number from it on; at distance zero or above 2048 it does nothing |
| `ReorderSteps.HalfSpaceDiffers` | hal/atbm_txrx.c:377-696 | at distance 0x800 a frame is dropped as old and a BlockAckReq moves the window all the way |
| `ReorderSteps.ExpiredIsPrefix` | hal/atbm_txrx.c:276-294 | the expired slots are exactly the prefix the handler's loop looks at |
| `ReorderSteps.TimeoutExact` | hal/atbm_txrx.c:261-306 | one run of the handler leaves no expired slot behind and passes up, in order, exactly the frames with no unexpired gap before them; the window then starts at exactly the first missing number behind the expired ones |
| `ReorderSteps.HeadIsStamped` | hal/atbm_txrx.c:438-449 | whenever something is buffered the head slot is stamped, so the warnings at lines 449 and 748 cannot fire |
| `ReorderSteps.ReleaseThenDrainRests` | hal/atbm_txrx.c:225-259 | releasing slots and then the gapless run leaves an empty head and delivers exactly the frames below the new start |
| `ReorderWindow.AdvanceSound` | hal/atbm_txrx.c:182-240 | releasing slots keeps the trail of stamps: the stamped slots stay the prefix that ends at the furthest frame, in clock order |
| `ReorderWindow.StoreTrail` | hal/atbm_txrx.c:164-181 | stamping back from a new frame to the first stamped slot extends the trail, and keeps it in clock order |
| `ReorderWindow.StoreSound` | hal/atbm_txrx.c:164-181 | buffering a frame keeps every frame at the offset of its number, and the trail |
| `ReorderWindow.FramesSpec` | hal/atbm_txrx.c:225-259 | the frames of a stretch of slots are exactly those buffered there, each once, in increasing order |
| `ReorderRing.IndexOfDistance` | hal/atbm_txrx.c:356-361 | the ring entry of a 12-bit number is the slot at its distance from the window start, also after the window moved |
| `ReorderRing.PopHead` | hal/atbm_txrx.c:182-240 | clearing the head entry and moving the start by one turns the ring into that of the advanced window |
| `ReorderRing.InsertIsReceive` | hal/atbm_txrx.c:385-436 | the code's order of work, release, buffer, drain, is the window model's receive step |
| `ReorderRing.DrainAfterRelease` | hal/atbm_txrx.c:684-735 | a release followed by the drain is one release-then-drain of the window |
| `ReorderRing.ReorderTid.constructor` | hal/atbm_txrx.c:466-492 | a block-ack session that is off, with nothing buffered |
| `ReorderRing.ReorderTid.BuffQueue` | hal/atbm_txrx.c:164-181 | the ring after the backward stamping loop is that of the window with the frame stored |
| `ReorderRing.ReorderTid.StampBack` | hal/atbm_txrx.c:169-176 | the stamping loop stamps exactly the unstamped entries between the window start and the frame |
| `ReorderRing.ReorderTid.BuffDequeue` | hal/atbm_txrx.c:182-207 | one entry goes up or is freed, its stamp cleared, the count kept |
| `ReorderRing.ReorderTid.ReleaseHead` | hal/atbm_txrx.c:225-239 | one turn of a release loop empties the head entry and advances the window by one |
| `ReorderRing.ReorderTid.ForceRelease` | hal/atbm_txrx.c:209-240 | the first slots are released in order, up or freed, and the window advances over them |
| `ReorderRing.ReorderTid.Uplayer` | hal/atbm_txrx.c:242-259 | the gapless run at the head is passed up and nothing more |
| `ReorderRing.ReorderTid.ReleaseExpired` | hal/atbm_txrx.c:276-294 | the timeout loop releases exactly the expired prefix |
| `ReorderRing.ReorderTid.ReleaseTimedOut` | hal/atbm_txrx.c:271-296 | the timeout loop and the drain behind it compute the model's timeout |
| `ReorderRing.ReorderTid.PkgTimeout` | hal/atbm_txrx.c:261-306 | the handler computes the window model's timeout; the timeout that fired is gone, and one a session timeout from now is registered if anything is left |
| `ReorderRing.ReorderTid.Insert` | hal/atbm_txrx.c:385-436 | an accepted frame leaves the ring of the window model's receive step |
| `ReorderRing.ReorderTid.DirectHit` | hal/atbm_txrx.c:362-372 | with nothing buffered the expected frame only moves the window start past it |
| `ReorderRing.ReorderTid.Reorder` | hal/atbm_txrx.c:362-431 | the four ways out of the locked part, each with its return code and exactly the model's outcome |
| `ReorderRing.ReorderTid.SkbQueue` | hal/atbm_txrx.c:311-464 | the return code tells exactly whether the caller still owns the frame, the state is the model's, the timer-running flag is set exactly when something is buffered, and the registered timeouts are the model's |
| `ReorderRing.ReorderTid.FrameTimer` | hal/atbm_txrx.c:428-460 | with nothing left every timeout is cancelled; a first frame or a new head replaces them by one that is due when the head's time has run out, or at once |
| `ReorderRing.ReorderTid.ReleaseBar` | hal/atbm_txrx.c:700-735 | the near and the far branch of a BlockAckReq both compute the model's release |
| `ReorderRing.ReorderTid.Restart` | hal/atbm_txrx.c:733-740 | the whole window is released, in order, and a blank one starts at the new number |
| `ReorderRing.ReorderTid.Move` | hal/atbm_txrx.c:740-741 | a window that holds nothing can start anywhere |
| `ReorderRing.ReorderTid.RxBar` | hal/atbm_txrx.c:684-757 | a BlockAckReq computes the model's step and adds a timeout to those registered if anything is left, or nothing when it is old or the session is off |
| `ReorderRing.ReorderTid.AcceptBar` | hal/atbm_txrx.c:700-757 | one that is not old releases as the model does, and a moved window with anything left adds a timeout |
| `ReorderRing.ReorderTid.BarTimer` | hal/atbm_txrx.c:737-757 | with nothing left every timeout is cancelled; otherwise a moved window adds one to those registered |
| `ReorderRing.ReorderTid.TidReset` | hal/atbm_txrx.c:531-555 | a reset frees every buffered frame and leaves a blank ring |
| `ReorderRing.ReorderTid.RxDelBa` | hal/atbm_txrx.c:666-683 | a DELBA frees every buffered frame and ends the session |
| `ReorderRing.ReorderTid.ClearRing` | hal/atbm_txrx.c:652-655 | every entry of the ring is empty and unstamped |
| `ReorderRing.ReorderTid.RxAddBa` | hal/atbm_txrx.c:630-665 | an ADDBA starts an empty window at its number with a timeout in range, or does nothing in a running session |
| `ReorderWindow.AgreedTimeout` | hal/atbm_txrx.c:642-648 | a timeout asked for between 100 and 400 is the one agreed; 0 means 200, less becomes 100, more becomes 400 |
| `ReorderRing.ReorderTid.Agree` | hal/atbm_txrx.c:642-648 | the timeout asked for, brought into range |
| `ReorderRing.ReorderTid.Blank` | hal/atbm_txrx.c:650-659 | a blank ring at the agreed number |
| `ReorderSession.HandleArrival` | hal/atbm_txrx.c:1964-1981 | the ring, its caller and what goes up are the session model's step for any frame |
| `ReorderSession.HandleOther` | hal/atbm_txrx.c:261-757 | and for any BlockAckReq, ADDBA or DELBA, and for any timeout, which does nothing unless it is registered |
| `ReorderSession.Drive` | hal/atbm_txrx.c:242-757 | over any run whatever, what goes up, what is freed, the state at the end and the timeouts registered then are those of the session model |
| `TxQueueModel.ParseUndoesMake` | hal/atbm_queue.c:51-76 | making an identifier and parsing it gives back all six fields; from the lowest bits on they are item, generation, queue, interface, link and queue generation |
| `TxQueueModel.MakeUndoesParse` | hal/atbm_queue.c:51-76 | making an identifier from the parsed fields of a 32-bit word gives back the word |
| `TxQueueSteps.PutPartition` | hal/atbm_queue.c:302-360 | put keeps every pool slot on exactly one of the three lists |
| `TxQueueSteps.GetPartition` | hal/atbm_queue.c:362-409 | so does get |
| `TxQueueSteps.RequeuePartition` | hal/atbm_queue.c:412-456 | so does requeue |
| `TxQueueSteps.RemovePartition` | hal/atbm_queue.c:491-552 | so does remove |
| `TxQueueSteps.RequeueAllPartition` | hal/atbm_queue.c:458-489 | so does requeueing everything |
| `TxQueueSteps.DroppedPartition` | hal/atbm_queue.c:99-148 | so does the timeout |
| `TxQueueSteps.GetPicks` | hal/atbm_queue.c:362-409 | for any selection of items, get moves the picked one from the waiting to the end of the sent ones and disturbs no other |
| `TxQueueSteps.RequeueAllPicks` | hal/atbm_queue.c:458-489 | the reverse walk with pushes to the head puts the sent items of any selection back in front, in order |
| `TxQueueSteps.UsedNext` | hal/atbm_queue.c:129-535 | the slot confirmed last is the next one used; slots emptied by a timeout come after all that were free |
| `TxQueueRuns.RunOrdered` | hal/atbm_queue.c:302-552 | over any run without a single requeue, the sent and then the waiting items of each interface and link are in arrival order |
| `TxQueueRuns.GetKeepsFlow` | hal/atbm_queue.c:362-409 | taking the first match under any link map leaves every flow unchanged |
| `TxQueueRuns.RequeueAllKeepsFlow` | hal/atbm_queue.c:458-489 | so does requeueing everything |
| `TxQueueRuns.PutExtendsFlow` | hal/atbm_queue.c:302-360 | put appends to its own flow and touches no other |
| `TxQueueRuns.RequeueOrderedIff` | hal/atbm_queue.c:412-456 | a single requeue keeps every flow in order if and only if it returns the last sent item of its flow |
| `TxQueueRuns.ApplyKeeps` | hal/atbm_queue.c:99-552 | every operation keeps the partition, the labels and the identifiers of live items |
| `TxQueueRuns.LiveIdsDistinct` | hal/atbm_queue.c:318-333 | live items have distinct identifiers, and each is found under its own |
| `TxQueueSteps.OwnIdFound` | hal/atbm_queue.c:412-447 | the identifier of a live item carries its fields and leads back to it |
| `TxQueueRuns.FoundCarriesIdIff` | hal/atbm_queue.c:412-447 | whatever the lookup finds, an item in use carries the identifier if and only if the slot found is in use and interface, link and queue fields agree |
| `TxQueueRuns.ConfirmedFoundAgain` | hal/atbm_queue.c:491-552 | a confirmed slot is found under its next generation with every field in agreement, free, without a frame and carrying another identifier |
| `TxQueueRuns.OtherInterfaceFound` | hal/atbm_queue.c:412-447 | an item in use is found under an identifier that names another interface |
| `TxQueueRuns.RunGeneration` | hal/atbm_queue.c:412-552 | over any run that does not reuse the slot, its generation counts the confirmations and requeues modulo 256 |
| `TxQueueRuns.RefusedIff` | hal/atbm_queue.c:412-552 | a used identifier is refused after any run that does not reuse its slot, if and only if the number of generation steps since is not a multiple of 256 |
| `TxQueueTimer.StepArmedIff` | hal/atbm_queue.c:99-552 | one operation leaves whatever waits with a timeout registered if and only if it brings nothing back or the timeout is registered when it does |
| `TxQueueTimer.RunArmedIff` | hal/atbm_queue.c:99-552 | all through a run whatever waits has a timeout registered, if and only if everything brought back comes back while it is |
| `TxQueueTimer.UnregisteredUntilPut` | hal/atbm_queue.c:349-352 | once unregistered, the timeout is registered by nothing but an accepted put |
| `TxQueueTimer.ReturnUnarms` | hal/atbm_queue.c:412-489 | a put, a get and a timeout that finds nothing waiting: a single requeue, and requeueing everything, then leave the frame waiting without a timeout |
| `TxQueueAge.NoEarlyDrop` | hal/atbm_queue.c:109-328 | over any run from an accepted put at time t, sent and brought back or not, no timeout before t plus its time to live drops the frame: it is there until it is confirmed |
| `TxQueueAge.HeadDropsIff` | hal/atbm_queue.c:109-118 | after any run, the frame at the head of the queue is dropped by a timeout if and only if it was put the time to live ago, or longer |
| `TxQueueAge.TimeoutDropsIff` | hal/atbm_queue.c:109-134 | after any run from an empty queue, a timeout drops a waiting frame if and only if neither it nor any frame ahead of it is younger than the time to live, by the times of their puts |
| `TxQueueAge.TimeoutDropsAged` | hal/atbm_queue.c:109-134 | if nothing was brought back, it drops exactly the waiting frames that were put the time to live ago, or longer |
| `TxQueueAge.FramesDated` | hal/atbm_queue.c:328 | over any run every frame carries the time of the operation that put it, and no frame is held twice |
| `TxQueueAge.RunInOrder` | hal/atbm_queue.c:302-552 | over any run without requeues the waiting frames of all interfaces and links together are in arrival order |
| `TxQueueStray.RequeueFoundKeepsIff` | hal/atbm_queue.c:438-453 | requeueing whatever slot an identifier leads to keeps lists and eight-bit counters in agreement if and only if the slot is pending and carries the identifier |
| `TxQueueStray.RemoveFoundKeepsIff` | hal/atbm_queue.c:522-543 | so does removing it, if and only if the slot is pending and of the interface named |
| `TxQueueStray.RequeueFoundPartition` | hal/atbm_queue.c:438-453 | whatever slot is requeued, every slot stays on exactly one list |
| `TxQueueStray.RemoveFoundPartition` | hal/atbm_queue.c:522-535 | whatever slot is removed, every slot stays on exactly one list |
| `TxQueueExamples.RequeueBreaksOrder` | hal/atbm_queue.c:412-456 | two frames put and sent and the first one requeued: the order is broken |
| `TxQueueExamples.FullCircle` | hal/atbm_queue.c:458-489 | after 256 rounds of requeueing everything and sending again the first identifier is found again |
| `TxQueueExamples.OneSentExists` | hal/atbm_queue.c:385-391 | there is a queue as that run starts from |
| `TxQueueCounters.CountedPut` | hal/atbm_queue.c:302-360 | after put every redundant counter agrees with the lists |
| `TxQueueCounters.CountedGet` | hal/atbm_queue.c:385-405 | after get every redundant counter agrees with the lists |
| `TxQueueCounters.CountedRequeue` | hal/atbm_queue.c:434-456 | after requeue every redundant counter agrees with the lists |
| `TxQueueCounters.CountedRemove` | hal/atbm_queue.c:515-552 | after remove every redundant counter agrees with the lists |
| `TxQueueCounters.CountedDrop` | hal/atbm_queue.c:109-134 | after a timeout drop the queue's counters and the shared count per interface agree with the lists |
| `TxQueueCounters.CountersFit` | hal/include/atbm_queue.h:43-51 | with at most 255 slots no counter of a queue exceeds its eight bits |
| `TxQueueShared.StepKeepsShared` | hal/atbm_queue.c:335-338 | after any step of any queue the shared count of an interface is the sum, in eight bits, of what waits for it in all queues |
| `TxQueueShared.StepKeepsOthers` | hal/atbm_queue.c:335-338 | and the counters of every other queue stay in agreement |
| `TxQueueDevice.PutTo` | hal/atbm_queue.c:302-358 | a put on one of several queues that share their counts does there what it does alone, and leaves all of them valid together |
| `TxQueueDevice.StepsAlone` | hal/atbm_queue.c:335-338 | after any step of one queue alone, the counters of all others agree with the new shared count |
| `TxQueueDevice.Init` | hal/atbm_main.c:301-316 | the four queues of a device start valid together |
| `TxQueue.LockLostIff` | hal/atbm_queue.c:135-139 | a timeout may find an overfull queue to resume without dropping anything if and only if half the throttle is below half the capacity |
| `TxQueue.Queue.constructor` | hal/atbm_queue.c:151-187 | an empty queue with every slot free and all invariants |
| `TxQueue.QueueStats.constructor` | hal/atbm_queue.c:78-98 | no interface has anything queued |
| `TxQueue.Queue.Lookup` | hal/atbm_queue.c:421-447 | the outcome of a lookup, errors included: the generation of the queue in the top four bits is looked at first, then the slot in the lowest eight, then its generation in the next eight |
| `TxQueue.Queue.Put` | hal/atbm_queue.c:302-358 | the first free slot goes to the tail of the queue with the frame, its interface and link, generation zero and the time of the put; the error cases, the throttle, with overfull set and the queue locked when it is about to fill, and the timeout registered afterwards |
| `TxQueue.Queue.StopAndArm` | hal/atbm_queue.c:343-352 | the lock goes with overfull, and one timeout is registered, never a second one |
| `TxQueue.Queue.Get` | hal/atbm_queue.c:362-409 | the first waiting item of the interface whose link has its bit set in the map goes to the tail of the sent ones, or there is none |
| `TxQueue.Queue.Requeue` | hal/atbm_queue.c:412-456 | what becomes of whatever slot the identifier leads to, which is refused afterwards, or an error and no change; the queue stays valid if and only if the slot is pending and carries the identifier, and has a timeout coming afterwards if and only if it was registered |
| `TxQueue.Queue.Remove` | hal/atbm_queue.c:491-552 | what becomes of whatever slot the identifier leads to, which is refused afterwards, or an error and no change; the queue stays valid if and only if the slot is pending and of the interface named, and is unlocked exactly when it stops being overfull |
| `TxQueue.Queue.Resume` | hal/atbm_queue.c:135-139 | an overfull queue resumes once it is half empty, and its lock goes with it if and only if the interface is not null |
| `TxQueue.Queue.GetSkb` | hal/atbm_queue.c:555-587 | the frame in the slot found, which is there exactly when the slot is in use; or an error |
| `TxQueue.CarrierFound` | hal/atbm_queue.c:421-447 | if a pending item carries an identifier, the lookup leads to that item and to no other |
| `TxQueue.Queue.RequeueAll` | hal/atbm_queue.c:458-489 | the loop over pending from the tail computes the model's requeueing; with anything pending the queue has a timeout coming afterwards if and only if it was registered |
| `TxQueue.Queue.DropStale` | hal/atbm_queue.c:109-134 | the loop drops exactly the items at the head that waited for the time to live |
| `TxQueue.Queue.QueuedTimeout` | hal/atbm_queue.c:99-148 | the model's timeout; overfull is never cleared with a null interface, so the lock is always released with it |
| `TxQueue.Queue.ResumeAndRearm` | hal/atbm_queue.c:135-148 | an overfull queue resumes once half empty, and at the end of the handler the timeout is registered exactly if items wait |
| `TxQueue.Queue.GetNumQueued` | hal/atbm_queue.c:273-300 | the number of waiting items the link map selects, by the shortcut or by the sum over the cache |
| `TxQueue.Queue.InnerLock` | hal/atbm_queue.c:16-32 | the network queue stops with the first lock; a null interface locks nothing |
| `TxQueue.Queue.InnerUnlock` | hal/atbm_queue.c:33-49 | the network queue starts with the last unlock; a null interface unlocks nothing |
| `TxQueue.Queue.Lock` | hal/atbm_queue.c:589-595 | an outside lock stops the network queue and leaves the queue's own lock alone |
| `TxQueue.Queue.Unlock` | hal/atbm_queue.c:597-604 | an outside unlock undoes an outside lock |
| `TxQueue.BumpedRefuses` | hal/atbm_queue.c:434-552 | after a requeue or a removal the identifier is no longer found |
| `FrameFormat.StationToApRoundTrip` | net/atbm_util.c:590-756 | a station's Ethernet frame with ethertype above 0x600, converted, with any IV and ICV inserted and stripped, and converted back at the access point, is unchanged, with or without QoS |
| `FrameFormat.ApToStationRoundTrip` | net/atbm_util.c:590-756 | so is one from the access point, unless it is the station's own multicast, which is dropped |
| `FrameFormat.StationKeepsDestIff` | net/atbm_util.c:680-725 | a station's frame carries its destination if and only if it has an LLC header or the overwriting bytes spell it |
| `FrameFormat.LengthFrameLosesDest` | net/atbm_util.c:680-725 | a length frame whose destination is lost |
| `FrameFormat.StripUndoesInsertion` | hal/atbm_txrx.c:1910-1961 | stripping undoes the insertion for any IV and ICV contents |
| `FrameFormat.Received` | net/atbm_util.c:590-662 | what either side makes of a stripped frame the other side converted |
| `FrameBytes.From8023Bytes` | net/atbm_util.c:664-756 | every byte of a converted frame: type and direction, the three addresses of a station's frame (the BSSID first) or an access point's, the priority as traffic identifier in byte 24 and zero in byte 25, the LLC header by Ethernet type, and the payload |
| `FrameBytes.To8023Bytes` | net/atbm_util.c:590-662 | every byte of the Ethernet frame made of a data frame, or why there is none, by the bits of the first two bytes |
| `FrameBytes.ControlBytes` | net/atbm_util.c:228-260 | how long a frame's header is, by the bits of its first two bytes |
| `FrameBytes.CipherLengths` | hal/atbm_txrx.c:1921-1948 | the bytes each cipher puts before and behind the body: WEP 4 and 4, TKIP 8 and 12, CCMP 8 and 8, SMS4 18 and 16; the receiver takes off the same, behind the body nothing after a MIC failure |
| `FrameBytes.CipherRoundTrip` | hal/atbm_txrx.c:1129-1206 | for every cipher, a frame protected and stripped with it is the frame with the Protected bit and what the device fills in, byte by byte; after a MIC failure only the IV is gone |
| `FrameBytes.TidArrives` | hal/atbm_txrx.c:320-341 | the priority the network stack gives a frame is the traffic identifier it is received under, through conversion, insertion and removal |
| `PacketBuffer.CopyUpClean` | net/atbm_util.c:709-725 | an upward copy to a lower address or between disjoint regions is a plain store |
| `PacketBuffer.CopyUpSmears` | net/atbm_util.c:719-725 | a six-byte copy to four places up within its own source repeats its first four bytes |
| `PacketBuffer.Skb.Put` | hal/atbm_skbuf.c:107-113 | more bytes at the tail, the old contents kept; the frame fits the buffer if and only if the tailroom has them |
| `PacketBuffer.Skb.Push` | hal/atbm_skbuf.c:115-120 | more bytes at the head, the old contents kept |
| `PacketBuffer.Skb.Pull` | hal/atbm_skbuf.c:122-126 | the contents without their first bytes, if and only if there are that many |
| `PacketBuffer.Skb.Trim` | hal/atbm_skbuf.c:180-185 | the contents cut to a length |
| `PacketBuffer.Skb.constructor` | hal/atbm_skbuf.c:14-40 | an empty frame in zeroed memory with 64 bytes of room on both sides |
| `PacketBuffer.Skb.Reserve` | hal/atbm_skbuf.c:160-173 | more headroom for an empty frame |
| `Conversion.Converter.DataFrom8023` | net/atbm_util.c:664-756 | the in-place conversion produces exactly the frame of the format, errors included; every byte of it is given, QoS control and addresses among them |
| `Conversion.Converter.ApStores` | net/atbm_util.c:709-717 | the access point's overlapping address stores leave the three addresses intact |
| `Conversion.Converter.StationStores` | net/atbm_util.c:718-725 | so do a station's when there is an LLC header |
| `Conversion.Converter.StationStoresLost` | net/atbm_util.c:718-725 | without one and without QoS the third address is the source |
| `Conversion.Converter.StationStoresLostQos` | net/atbm_util.c:718-725 | without one and with QoS the third address is the source from its third byte on, and again |
| `Conversion.Converter.DataTo8023` | net/atbm_util.c:590-662 | so does the conversion back, for payloads of any length, with every byte given; a refused frame is untouched, and so is the memory behind the frame |
| `Conversion.Converter.PutEthHeader` | net/atbm_util.c:640-661 | the LLC header, if there is one, makes way for an Ethernet header, also when the frame ends within it |
| `Conversion.PutAddressesPast` | net/atbm_util.c:640-652 | the addresses of a frame that ends within its LLC header come to lie across its end |
| `Conversion.Converter.InsertCrypt` | hal/atbm_txrx.c:1129-1206 | the in-place insertion opens the gaps for IV and ICV around an unchanged body, for any room on either side; what passes the check fits the buffer if and only if the tailroom holds the ICV |
| `Conversion.Converter.StripCrypt` | hal/atbm_txrx.c:1910-1961 | the in-place removal leaves exactly header and body, or drops a short frame; how much it takes off for each cipher is in `FrameBytes.CipherLengths` |
| `BuffList.Head.Insert` | hal/atbm_skbuf.c:187-195 | the four pointer writes insert the buffer at its place in the ring |
| `BuffList.Head.Unlink` | hal/atbm_skbuf.c:244-254 | the pointer writes take the buffer out of the ring, and out only |
| `BuffList.Head.QueueTail` | hal/atbm_skbuf.c:352-362 | the buffer becomes the last one |
| `BuffList.Head.Dequeue` | hal/atbm_skbuf.c:322-350 | the first buffer comes off, or null from an empty list |
| `BuffList.Head.Purge` | hal/atbm_skbuf.c:371-376 | every buffer comes off, in order |
| `AmsduFormat.SplitUndoesAggregate` | net/atbm_util.c:288-385 | splitting any aggregate of well-formed subframes delivers their Ethernet frames in order |
| `AmsduFormat.FramesArrive` | net/atbm_util.c:288-385 | Ethernet frames put into an aggregate, with a type or a correct length field, come out byte for byte, in order |
| `AmsduFormat.MalformedDeliversNothing` | net/atbm_util.c:318-330 | a malformed subframe behind any number of good ones delivers nothing at all |
| `AmsduFormat.PurgedIff` | net/atbm_util.c:311-385 | nothing is delivered, from any buffer, if and only if the loop meets a malformed subframe |
| `AmsduFormat.CutShortIff` | net/atbm_util.c:348-374 | otherwise each turn delivers a frame, and it ends within its own Ethernet header if and only if the body is shorter than eight bytes and passes for an LLC header |
| `AmsduFormat.ThreeByteBody` | net/atbm_util.c:348-374 | a body aa aa 03 gives a frame of nine bytes |
| `AmsduFormat.WrapperKeepsAggregateIff` | net/atbm_util.c:297-309 | the header conversion leaves the aggregate whole if and only if its first eight bytes do not pass for an LLC header |
| `AmsduFormat.WrapperCutShortIff` | net/atbm_util.c:297-309 | the converted frame is shorter than the Ethernet header skipped next if and only if the payload ends within what passes for its LLC header |
| `AmsduFormat.ThreeBytePayload` | net/atbm_util.c:297-309 | a payload aa aa 03 converts to nine bytes |
| `AmsduFormat.AggregateArrives` | net/atbm_util.c:288-385 | an accepted data frame around an aggregate delivers its Ethernet frames, unless the first destination is the bridge-tunnel header |
| `AmsduFormat.BridgeTunnelDestIsMisread` | net/atbm_util.c:297-385 | a well-formed subframe addressed to the bridge-tunnel bytes is delivered as another frame |
| `Amsdu.SplitBuffer` | net/atbm_util.c:311-385 | the loop over the buffer, with copies for all but the last subframe, computes the split of any buffer and terminates |
| `Amsdu.SplitWithHeader` | net/atbm_util.c:288-385 | the whole function on a frame that still has its 802.11 header |
| `Amsdu.PutHeader` | net/atbm_util.c:348-374 | the end of the loop's body puts the Ethernet header in place of the LLC header or the length, for bodies of any length |
| `Amsdu.CopyBody` | net/atbm_util.c:334-345 | a buffer of its own holds the subframe's body in zeroed memory |
| `Amsdu.TakeCopy` | net/atbm_util.c:334-374 | a subframe that is not the last is copied out and the buffer moves past its padding |
| `Tim.StationMap.SetTim` | net/atbm_mgmt.c:2668-2687 | a station's bit becomes what was asked: its octet, as a number, changes by two to the power aid modulo 8, no other octet changes, the counter stays the number of set bits, and the result says whether anything changed |
| `Tim.StationMap.Scan` | net/atbm_mgmt.c:2696-2709 | the two scans find an even start and the last nonzero byte; the counter invariant makes the unsigned backward scan stop |
| `Tim.StationMap.AddTim` | net/atbm_mgmt.c:2689-2728 | a receiver reading the element finds every station indicated exactly as the map says, for any bitmap length: a station is indicated if and only if its octet, divided by two to the power aid modulo 8, is odd; and the group bit as asked |
| `Tim.BitIsDigit` | os/freertos/atbm_os_atomic.c:33 | the bit tested for a station is the binary digit of its octet |
| `Tim.PutNumber` | net/atbm_mgmt.c:2673-2682 | setting a bit that is clear adds its power of two to the octet, clearing one that is set takes it away |
| `Tim.MapTellsLastCall` | net/atbm_mgmt.c:2668-2687 | after any history the map tells of every station what the last call about it said |
| `Tim.CountZeroBytes` | net/atbm_mgmt.c:2696-2709 | no bit is counted if and only if every byte is zero |
| `Elements.ParseElems` | net/atbm_util.c:1720-1797 | the parser's loop keeps, for every field, the body of the last element with the field's own number, least length and vendor bytes, of a network name its first 32 bytes, and leaves the field out if there is none |
| `Elements.CollectedTaken` | net/atbm_util.c:1735-1790 | the same of any list of elements |
| `Elements.ReserveKeyIe` | net/atbm_util.c:1800-1848 | the copy holds exactly the reserved elements in order, or the result is -1 if and only if they do not fit |
| `Elements.KeptElements` | net/atbm_util.c:1813-1840 | the copied elements are exactly those of the seven numbers and the WPA and longer WMM ones |
| `Elements.ListedJoined` | net/atbm_util.c:1720-1797 | reading written elements gives them back, whatever follows |
| `Elements.ReservedParses` | net/atbm_util.c:1720-1848 | parsing the copy gives the same SSID, rates, DS, HT, RSN and WPA fields as parsing the original, the same WMM field if and only if it is not five bytes long, and no other field |
| `Elements.CopyKeepsMeaning` | net/atbm_util.c:1813-1840 | the same on lists of elements |
| `Elements.ShortWmmIsLost` | net/atbm_util.c:1828-1840 | a five-byte WMM element is parsed from the original and missing from the copy |
| `Rates.AddRateIe` | net/atbm_util.c:846-906 | the elements, parsed, together carry exactly one byte for each rate of the mask, without the lowest four bits if the 802.11b rates are not to be used, each at its place in order and with 0x80 added if it is basic; at most eight in the first and a second only behind eight |
| `Rates.WriteRates` | net/atbm_util.c:846-906 | the two loops write those bytes |
| `Rates.RateBytesAt` | net/atbm_util.c:846-906 | the byte of a rate stands at the place of its bit among the bits of the mask |
| `Rates.GetStaRateinfo` | net/atbm_util.c:760-779 | the nested loops add exactly the bits of the rates read |
| `Rates.RatesRoundTrip` | net/atbm_util.c:760-906 | from what the written elements parse to, reading both lists gives back the mask restricted to the table, without its lowest four bits if those are not to be used, and its basic bits |
| `Rates.ReadRateBytes` | net/atbm_util.c:760-779 | reading the bytes of a mask gives back its bits below any bound |
| `RetryOrder.PolicyFaithful` | net/atbm_rc80211_minstrel_ht.c:968-1021 | for any list asked for, with a try each and no rate of the taken run above eight bits: the policy strictly descends, keeps every taken rate, meets the limit exactly when it must be cut, and cuts the lowest index first to one try; nearly descending lists are taken whole |
| `RetryOrder.ExchangedDescendingIff` | net/atbm_rc80211_minstrel_ht.c:985-995 | the single exchange pass leaves the rates in descending order if and only if they nearly were |
| `RetryOrder.PolicyTakesAllIff` | net/atbm_rc80211_minstrel_ht.c:985-1009 | all tries are taken into account if and only if the rates nearly were in order |
| `RetryOrder.AscendingLosesHighest` | net/atbm_rc80211_minstrel_ht.c:985-1009 | of three ascending indices the highest is lost |
| `RetryOrder.ExchangedKeepsTries` | net/atbm_rc80211_minstrel_ht.c:985-995 | the exchange pass loses no try and moves none to another rate |
| `RetryOrder.PolicyDescends` | net/atbm_rc80211_minstrel_ht.c:968-1021 | the policy strictly descends whatever is asked for |
| `RetryOrder.TakenMergesDescending` | net/atbm_rc80211_minstrel_ht.c:996-1009 | of any list, what merging takes before it stops strictly descends once merged |
| `RetryOrder.MergedTries` | net/atbm_rc80211_minstrel_ht.c:996-1009 | merging adds up the tries of every rate, in eight bits |
| `RetryOrder.MergedWraps` | net/atbm_rc80211_minstrel_ht.c:996-1009 | two requests of 200 tries at one rate merge into 144 |
| `RetryOrder.CutTotal` | net/atbm_rc80211_minstrel_ht.c:1010-1021 | the cut makes the sum exactly the limit, or changes nothing |
| `RetryOrder.CutShape` | net/atbm_rc80211_minstrel_ht.c:1010-1021 | every rate keeps at least one try and its place, and once one is cut all of lower index have one |
| `RetryLimit.PolicyWithinLimit` | net/atbm_rc80211_minstrel_ht.c:968-1021 | for any list whatever, the tries of the policy add up to no more than the limit, or one per rate, and no rate gets more than was asked for it |
| `RetryLimit.MergedTotalIff` | net/atbm_rc80211_minstrel_ht.c:996-1009 | merging loses no try if and only if no rate is asked for more often than eight bits can say |
| `RetryTable.PolicyDecodes` | net/atbm_rc80211_minstrel_ht.c:968-1038 | for any list asked for, of either band or both, the nibble of each rate of its policy, eight to a word from the lowest on, is the rate's tries, at most fifteen, and all other nibbles are zero |
| `RetryTable.TableDecodes` | net/atbm_rc80211_minstrel_ht.c:1023-1038 | so does the table of any strictly descending rates |
| `RetryTable.FillAt` | net/atbm_rc80211_minstrel_ht.c:1023-1038 | so it does for any rate that shares its place with no other |
| `RetryPolicy.Exchange` | net/atbm_rc80211_minstrel_ht.c:985-995 | the in-place pass, stopped by the first negative index |
| `RetryPolicy.Merge` | net/atbm_rc80211_minstrel_ht.c:996-1009 | the in-place merge of the longest descending run, with its total |
| `RetryPolicy.MergeInto` | net/atbm_rc80211_minstrel_ht.c:999-1006 | one rate joins the last group or starts a new one |
| `RetryPolicy.Cut` | net/atbm_rc80211_minstrel_ht.c:1015-1021 | the in-place cut |
| `RetryPolicy.Pack` | net/atbm_rc80211_minstrel_ht.c:1023-1038 | the or-ing loop fills the table |
| `RetryPolicy.Build` | net/atbm_rc80211_minstrel_ht.c:968-1038 | the whole construction produces the packed policy |

## Left out

- Time: each entry point reads the clock once, where the source reads it again in its loops; the
  clock is positive, does not go backwards and does not wrap at 32 bits. Registering a timeout never
  fails, although the driver has sixteen timers for all uses.
- Selection of the session by link and traffic identifier, the locks, `atbm_reorder_func_reset`
  (a loop that does to every session what a DELBA does) and `atbm_reorder_tid_buffed_clear`, which nothing calls.
- What `atbmwifi_ieee80211_rx_irqsafe` does with a frame: it counts as passed up.
- ReorderRuns.RunInOrder: leaves out runs with events that are not orderly; those break the order, see
  `OrderKeptIff` and `HandedBackOvertakes`. A frame more than 2048 from the window start cannot be told from a
  nearer one by twelve bits.
- The three queue lists and their links: they are sequences of pool indices. `BuffList` has the
  pointers of the buffer list only, which has the same shape.
- TxQueue.Queue.constructor: takes a throttle of three or more, half of which is not below half the capacity (see
  `LockLostIff`), at most 255 items, since the eight-bit counters would wrap at 256, and at least one link.
- The shared link map cache (`stats->link_map_cache`), which the timeout does not decrement, and
  `atbmwifi_queue_clear`, which subtracts items that were never pending.
- TxQueue.Queue.Put: all interfaces are present, so locking never meets a null interface here, and the external
  lock count does not wrap at eight bits.
- TxQueue.Queue.Requeue: takes identifiers of this queue that name one of its two interfaces, which index its
  counters unchecked.
- TxQueue.Queue.Remove: so does this one.
- The bitwise or of a packet identifier's fields is written as a sum, which is the same for fields
  in range; rate masks are sets of bit numbers.
- P2P interface types (`CONFIG_P2P` is 0), IBSS, the CCMP replay check, and the device's own work:
  it fills in duration, sequence number, IV and ICV, which are arbitrary here.
- Conversion.Converter.DataTo8023: takes data frames that hold their own 802.11 header, with eight bytes of memory
  behind them; the length of a shorter one would wrap below zero.
- Amsdu.SplitWithHeader: leaves out the frame that ends within its first LLC header (`EndsInLlc`); skipping its
  Ethernet header wraps its length below zero.
- Allocation always succeeds; byte copies go upwards, byte by byte.
- RetryOrder.PolicyFaithful: every rate asked for has a try, and no sum goes beyond eight bits; for any list whatever
  see `RetryLimit` and `PolicyDescends`.
- RetryTable.PolicyDecodes: no rate has a negative index; the driver warns of one and uses hardware rate 0.
- RetryPolicy.Build: the two tables of hardware rates are parameters with values below 24. The policy cache
  around it is left out.
- SDIO, firmware loading, production tests, WPA, scan and association, the bridge, the key table, PID rate
  control and power-save accounting.
