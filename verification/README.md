# Verified model of the MeshBeacon uplink gateway core

This project models the parts of the gateway where timing, wrap-around arithmetic and in-place data structures meet, and
proves what they promise:

- **The Just-In-Time TX queue** (`JitQueue.dfy` and the other `Jit*.dfy`): up to 32 timed packets in an array, kept in
  order of a 32-bit microsecond counter that rolls over, with a collision test on reserved intervals, a slot search for
  immediate downlinks, and a peek that purges and restarts. `JitQueue.dfy` gives each call as a relation on the queued
  nodes and the class that follows it in place; the other files prove separation, the exact effect of a peek on any
  ordered queue, when an immediate downlink finds a slot, the behaviour of the two threads that share the queue over
  every interleaving, timely delivery over every run that keeps up, and what the queue does not protect. `JitPlain.dfy` states
  the calls once more in plain microseconds.
- **The SX1302 RX buffer** (`RxFrame.dfy`, `RxRoundTrip.dfy`, `RxBuffer.dfy`): resynchronisation, counting walk, popping,
  and the round trip with an encoder of frames.
- **Duplicate removal in the HAL** (`MergePackets.dfy`), **the offline MQTT queue** (`MqttRing.dfy`), **the GPS time
  reference** (`GpsTime.dfy`) and **the GPS serial buffer** (`GpsWindow.dfy`, `GpsStream.dfy`,
  `GpsSplit.dfy`, `NmeaFrame.dfy`).
- Shared: `Word32.dfy` (counter arithmetic), `CountSort.dfy` (sorting by a wrapping counter), `TimeOnAir.dfy` (LoRa
  time on air), `Runs.dfy` (runs of a state machine), `Options.dfy`.

`dafny verify dfyconfig.toml` checks everything.

## How the model reads the source

- True time is an unbounded integer; the code sees it modulo 2^32. `Due(t, c)` is the first true time at or after `t`
  that the counter shows as `c`.
- `qsort_r` is taken as any sort: a permutation that is in order whenever all keys lie within half the counter range,
  which is when the comparator (the wrapped difference) is an order (`IsSortOf`). Theorems hold for every such result.
- Each JIT call is one atomic step: the mutex is held while it works. The full and empty checks are taken before the
  lock; only `thread_down` adds and only `thread_jit` removes, so an answer that lets the call go on stays true.
- A pointer that may be NULL on input (the packet of `jit_enqueue`) is an `Option`; out-pointers are results.
- After a purge, `jit_peek` resumes its scan at index 1 and keeps its candidate index. The model does the same. On the
  ordered queues that occur this is harmless for the index (`PeekSafe`), but what a peek does depends on how many packets
  are late (`PeekExactly`): with one late packet it purges that one and does not look at the next, even when that one is
  due; with several it leaves the second of them in the queue and does hand over a due one. So the first plausible
  packet, when due, is handed over if and only if the number of late packets is not one (`DueHandedOverIff`).
- Acceptance limits Class A and B downlinks to 512 s ahead and nothing else, while a peek purges everything that is not
  less than 512 s ahead. So a packet of any type is accepted and then lost to a peek with the same clock reading if and
  only if it lies at least 512 s ahead (`EnqueueThenPeek`): for Class A and B that is exactly 512 s, for beacons and
  immediate downlinks any larger distance (`AcceptedOutdatedIff`). It happens to the third beacon of a cycle when the
  beacon period is long (`BeaconsKeptIff`), and to an immediate downlink when nothing closer is free
  (`ImmediateStaysIff`). Timely runs accept what is closer.
- Runs keep a pace (`Pace`): a longest time between peeks, and what kinds of packets are queued meanwhile.
  `NeverPurgesIff` gives the exact pace at which nothing is ever purged: a peek every 40 ms; with both beacons and
  Class A downlinks every 21,250 us plus half the shortest Class A reservation, because a Class A downlink may be placed
  right before a beacon and a peek hands over only one of the two. Immediate downlinks are kept clear of beacons, so they
  do not need this.
- The queue separates queued packets only. A packet already handed over blocks nothing any more: a newcomer is due at
  least 2502 us after it (`NewcomerGap`), an immediate one at least 40,001 us (`ImmediateGap`), both gaps are met, and so
  a newcomer can be due while a LoRa frame is still on air if and only if the frame lasts longer than that (`OverlapIff`,
  `ImmediateOverlapIff`). The comments on `jit_enqueue` do not mention this.
- An immediate downlink is refused only where ASAP and every gap between queued packets are taken, and the place behind
  the last one either reaches around the 32-bit counter to the first packet, or wraps around it to at most 42.5 ms ahead
  and is then too late (`ClassCAcceptedIff`). The first happens with two LoRa packets of the longest preambles
  (`TwoLongestRefused`), the second to a third packet of 2 ms behind two such ones (`ThirdTooLate`).
- An enqueue between a peek and its dequeue may use a clock reading that is older than the peek's. How much older is
  harmless depends on the collision test as well: `OvertakesIff` gives the exact tolerance, at least 5002 us for a beacon
  and 45,002 us for a downlink, beyond which the dequeue can remove another packet than the one peeked.
- The merge keeps a good CRC for sure only among receptions whose CRC was checked: `GoodKeptIff` gives the exact
  condition on the statuses, against the comment in the source that the packet with the CRC checked is kept.
- The GPS thread loses a message that carries another whole one, when the reads happen to split it (`NestedLost`):
  `AlwaysRecognisedIff` gives the exact condition, `RecognisedBehindIff` the one behind noise, and `WindowBehindNoise` the
  guarantee for whole streams that meet it.
- The environment of the two-thread runs (`Benign`): accepted packets reserve less than about 71 minutes, which every
  beacon and every packet with a legal datarate does (`LegalWellFormed`), and are scheduled within half the
  counter range of the queue.
  Without the first the beacon guard test wraps; `GuardCheckedIff` says exactly when.
- I/O is a parameter: bytes from the FIFO or the serial line, clock readings, allocation and publish outcomes, and the
  calls that other threads make in between.

## Model

| member | source | states |
|---|---|---|
| Word32.DueUnique | clusterduck/src/jitqueue.c:241-249 | the due time of a counter value is the only time in the next period at which the counter shows it |
| Word32.SubWrap | clusterduck/src/jitqueue.c:241-249 | unsigned subtraction of counter values is subtraction of true times less than a period apart |
| CountSort.QSort | clusterduck/src/jitqueue.c:112-138 | the sorted prefix is a permutation of the old one, in order from every base whose half range holds the keys; the rest of the array is untouched |
| CountSort.AfterInHalfRange | clusterduck/src/jitqueue.c:112-126 | within a half range the sign of the wrapped difference is the order of distances from its base |
| CountSort.OrderedUnique | clusterduck/src/jitqueue.c:128-138 | the sort of distinct timestamps in a half range has one possible result |
| CountSort.RemoveSorts | clusterduck/src/jitqueue.c:367-372 | overwriting a node with the last one and sorting again just deletes the node |
| CountSort.InsertAfter | clusterduck/src/jitqueue.c:317-328 | appending a later packet and sorting leaves every earlier index as it was |
| TimeOnAir.LoraTimeOnAir | libloragw/src/loragw_aux.c:91-163 | the time on air of any parameters fits well into 32 bits |
| TimeOnAir.SymbolBounded | libloragw/src/loragw_aux.c:130-131 | the symbol time is a multiple of 64 us between 64 and 32768 us, so quarters of symbols are exact |
| TimeOnAir.PayloadSymbolsLeast | libloragw/src/loragw_aux.c:133-141 | the payload takes cr + 4 symbols for each of the fewest blocks that carry 8 bits per byte, 16 bits of CRC and 20 of header if any, less 4 bits per spreading factor, plus 8 from SF7 on, at 4 bits per block and spreading factor (two factors fewer at SF11 and SF12) |
| TimeOnAir.SymbolIsChips | libloragw/src/loragw_aux.c:114-131 | symbol time times bandwidth is 2^SF, for every bandwidth |
| TimeOnAir.TimeOnAirExact | libloragw/src/loragw_aux.c:114-147 | for every valid frame the result is, over the reals, preamble, sync and those payload symbols times 2^SF periods of the bandwidth |
| TimeOnAir.TimeOnAirRefused | libloragw/src/loragw_aux.c:102-113 | any other datarate, bandwidth or coding rate gives 0 |
| TimeOnAir.RealFrames | libloragw/src/loragw_aux.c:91-163 | eight real frames at SF5, SF7, SF11 and SF12, all bandwidths, with and without CRC and header, and their times on air |
| TimeOnAir.PacketFrames | libloragw/src/loragw_hal.c:1676-1679 | the fields of a packet go into the formula in their own roles, narrowed to 8 bits |
| TimeOnAir.ReservedByModulation | libloragw/src/loragw_hal.c:1676-1699 | legal FSK reserves its milliseconds, an unknown modulation nothing |
| TimeOnAir.FskRoundsUp | libloragw/src/loragw_hal.c:1681-1692 | an FSK packet is given the least whole number of milliseconds longer than its duration |
| TimeOnAir.LoraPostDelay | libloragw/src/loragw_hal.c:1677-1679 | the reservation is a whole number of milliseconds, at most 499 us shorter and 500 us longer than the emission |
| TimeOnAir.LegalPostDelay | libloragw/src/loragw_hal.c:1676-1692 | an FSK packet of at least 500 baud, or any LoRa packet, reserves less than 2181 s |
| JitQueue.FirstBlocker | clusterduck/src/jitqueue.c:279-292 | no node before the result collides with the packet, and the result, if any, does |
| JitQueue.StampedPostDelay | clusterduck/src/jitqueue.c:169-192 | turning an immediate downlink into a timestamped one leaves its reservation alone |
| JitQueue.JitQueue.constructor | clusterduck/src/jitqueue.c:98-110 | a new queue is empty with cleared slots |
| JitQueue.JitQueue.Init | clusterduck/src/jitqueue.c:98-110 | initialising empties the queue and clears every slot |
| JitQueue.JitQueue.FindAsap | clusterduck/src/jitqueue.c:188-236 | the two search loops pick ASAP when nothing collides with it, else the slot behind the first packet whose slot misses the next |
| JitQueue.JitQueue.Stamp | clusterduck/src/jitqueue.c:188-239 | an immediate downlink is given the mode and the timestamp of the slot found, anything else is left alone |
| JitQueue.JitQueue.FindBlocker | clusterduck/src/jitqueue.c:279-315 | the loop finds the first node that collides, with the beacon guard ignored for Class A and C |
| JitQueue.JitQueue.Check | clusterduck/src/jitqueue.c:241-315 | too late, too early and collision are reported in that order, with the kind of the first collision |
| JitQueue.JitQueue.Append | clusterduck/src/jitqueue.c:317-328 | the new node joins the sorted queue, the beacon counter follows, cleared slots stay cleared |
| JitQueue.JitQueue.Enqueue | clusterduck/src/jitqueue.c:149-338 | error, packet and queue left behind are those of the relation: an accepted packet is added and sorted in, a refused one changes nothing; `JitPlain` gives them in plain microseconds |
| JitPlain.BlocksPlain | clusterduck/src/jitqueue.c:140-147 | the collision test for every pair of types in plain microseconds, around the counter |
| JitPlain.EnqueuePlain | clusterduck/src/jitqueue.c:149-315 | the answer to a timestamped packet for every queue: full at 32, too late up to 42,500 us, too early for Class A and B beyond 512 s, and otherwise called after the type of the first entry it is not clear of |
| JitPlain.BeaconBehindDownlink | clusterduck/src/jitqueue.c:279-315 | a beacon behind a queued downlink is accepted if and only if it is due more than the reservation and 3,042,500 us later |
| JitPlain.DownlinkBeforeBeacon | clusterduck/src/jitqueue.c:279-315 | before a queued beacon, Class B needs its reservation and more than 3,042,500 us, Class A more than 2500 us |
| JitPlain.ImmediateBesideBeacon | clusterduck/src/jitqueue.c:188-239 | beside one beacon d us ahead an immediate downlink goes 80,000 us ahead if and only if d exceeds its reservation by more than 3,122,500 us, and otherwise d + 2,202,500 us |
| JitPlain.EnqueueLeaves | clusterduck/src/jitqueue.c:317-337 | an accepted packet is the one entry more, with its delays in microseconds, a beacon is counted, and a refusal leaves the queue alone |
| JitPlain.DequeuePlain | clusterduck/src/jitqueue.c:340-382 | an index outside 0..31 is refused, then an empty queue; otherwise exactly the entry at the index leaves, and a beacon is no longer counted |
| JitPlain.PeekPlain | clusterduck/src/jitqueue.c:384-398 | a peek at an empty queue says so and leaves queue and index alone; any other answers OK |
| JitQueue.JitQueue.Sort | clusterduck/src/jitqueue.c:128-138 | the live nodes are sorted and the slots past them stay cleared |
| JitQueue.JitQueue.Drop | clusterduck/src/jitqueue.c:358-372 | one node leaves, its slot is cleared, the beacon counter follows and the queue is sorted again |
| JitQueue.JitQueue.Dequeue | clusterduck/src/jitqueue.c:340-382 | a live index hands out that node and removes it; a bad index or an empty queue is refused; an index past the live nodes hands out a cleared slot and strands the last node there |
| JitQueue.JitQueue.Peek | clusterduck/src/jitqueue.c:384-454 | terminates across its restarts and does what the scan relation says; on an empty queue the caller's index is left alone |
| JitSeparation.CollidesExactly | clusterduck/src/jitqueue.c:140-147 | the wrapping test holds if and only if the reserved intervals are at most the margin apart in true time |
| JitSeparation.LoraWellFormed | clusterduck/src/jitqueue.c:169-184 | every LoRa packet and every beacon reserves too little to wrap the test |
| JitSeparation.LegalWellFormed | clusterduck/src/jitqueue.c:169-184 | so does every packet with a legal datarate, at most 2181 s |
| JitSeparation.UnblockedSeparated | clusterduck/src/jitqueue.c:279-292 | a packet that passes against a node is separated from it, also where only the reduced beacon guard counts later |
| JitSeparation.GuardCheckedIff | clusterduck/src/jitqueue.c:279-292 | passing the test with the whole beacon guard implies separation for every beacon if and only if the queued packet's reservation is outside a stated range near 2^32 us |
| JitSeparation.AdmittedSeparated | clusterduck/src/jitqueue.c:274-326 | an accepted packet leaves the queue pairwise separated |
| JitSeparation.AdmitIff | clusterduck/src/jitqueue.c:241-315 | in true time a packet is accepted if and only if it is more than 42.5 ms ahead, for Class A and B at most 512 s ahead, and its reservation is more than the margin away from every queued one |
| JitSeparation.SubSeparated | clusterduck/src/jitqueue.c:358-372 | removal and reordering keep the queue pairwise separated |
| JitSeparation.SeparatedDistinct | clusterduck/src/jitqueue.c:140-147 | separated packets have distinct timestamps |
| JitSeparation.SeparatedGap | clusterduck/src/jitqueue.c:140-147 | in true time the later packet's reservation starts more than the margin after the earlier one's ends |
| JitSeparation.EmissionsDisjoint | clusterduck/src/jitqueue.c:169-176 | emissions of two queued LoRa downlinks never overlap, in spite of the millisecond rounding |
| JitPeek.ScanInduction | clusterduck/src/jitqueue.c:399-437 | the scan ends in a state that satisfies whatever its steps and purges keep |
| JitPeek.PeekPurges | clusterduck/src/jitqueue.c:400-437 | only outdated packets are removed, and at most the one at index 0 is left outdated |
| JitPeek.PeekSafe | clusterduck/src/jitqueue.c:384-454 | on an ordered queue the result is -1 or a live index of a packet less than TX_JIT_DELAY away, and the queue stays ordered |
| JitPeek.PeekClosest | clusterduck/src/jitqueue.c:399-449 | with nothing outdated the queue is unchanged and the first of the closest packets is chosen, or -1 exactly when none is that close |
| JitPurge.SplitExists | clusterduck/src/jitqueue.c:399-437 | every ordered queue is late packets, then plausible ones, then packets too far ahead |
| JitPurge.PeekIsScan | clusterduck/src/jitqueue.c:399-449 | on an ordered queue overwriting, clearing and sorting amount to a deletion, so a peek is one function of queue and time |
| JitPurge.PeekExactly | clusterduck/src/jitqueue.c:384-454 | for every ordered queue, what a peek leaves and the index it returns: plausible packets stay, of several late ones the second stays, and the packet looked at is the first plausible one, or the second when exactly one was late |
| JitPurge.DueHandedOverIff | clusterduck/src/jitqueue.c:422-449 | the first plausible packet, when due, is handed over if and only if the number of late packets is not one |
| JitPurge.PurgeHidesNext | clusterduck/src/jitqueue.c:422-437 | when exactly one of several separated downlinks is late, the peek returns -1 whatever is due next |
| JitPurge.HiddenExample | clusterduck/src/jitqueue.c:422-437 | a queue with one late packet in which the packet due in 20 ms is not handed over |
| JitPurge.TwoLateExample | clusterduck/src/jitqueue.c:422-437 | a queue with two late packets in which the second stays queued and the next packet is handed over |
| JitAdvance.AcceptedOutdatedIff | clusterduck/src/jitqueue.c:255-272 | an accepted packet is outdated at the same clock reading: Class A and B if and only if exactly 512 s ahead, Class C and beacons if and only if at least that far |
| JitAdvance.EnqueueThenPeek | clusterduck/src/jitqueue.c:400-427 | for every type and timestamp: accepted by an ordered queue without outdated packets, the packet is still queued after a peek with the same clock reading if and only if it is less than 512 s ahead, and otherwise the queue is as before it came |
| JitAdvance.FarPacketLost | clusterduck/src/jitqueue.c:400-449 | between 512 s and half the counter range ahead the lost packet was last, and the peek chooses what it would have chosen without it |
| JitAdvance.FarBeaconLost | clusterduck/src/clusterduckd.c:3015-3019 | a beacon 512 s or more ahead is accepted by an empty queue and gone after the peek |
| JitAdvance.BoundaryPacketAccepted | clusterduck/src/jitqueue.c:255-272 | an empty queue does accept a Class A or B packet exactly 512 s ahead |
| JitAdvance.ImmediateKeptIff | clusterduck/src/jitqueue.c:188-239 | an immediate downlink is accepted and lost if and only if ASAP and every slot less than 512 s ahead were taken before the call and the last slot does not wrap to less |
| JitAdvance.FarSlotLost | clusterduck/src/jitqueue.c:206-239 | so it is behind a single downlink that ends more than 512 s ahead |
| JitAdvance.BeaconFits | clusterduck/src/clusterduckd.c:1730-1737 | a beacon at least 6 s behind all queued ones is accepted and sorted in last |
| JitAdvance.CycleAccepted | clusterduck/src/clusterduckd.c:2954-3029 | the beacons of a cycle, a period of at least 6 s apart, are all accepted and queued in order |
| JitAdvance.BeaconsKeptIff | clusterduck/src/clusterduckd.c:2954-3029 | a peek keeps the three beacons of a cycle if and only if the last one is less than 512 s ahead |
| JitSlot.SearchStops | clusterduck/src/jitqueue.c:217-234 | the search ends behind the first packet whose slot misses the next one, or behind the last |
| JitSlot.SlotBeforeNext | clusterduck/src/jitqueue.c:219-233 | missing the next packet means ending before its reservation |
| JitSlot.SlotFits | clusterduck/src/jitqueue.c:217-234 | the slot found by looking at one neighbour, unless it wraps, collides only with earlier packets that the reservation reaches around the counter |
| JitSlot.WrappedUnblockedIff | clusterduck/src/jitqueue.c:217-234 | the slot behind the last packet, when it wraps, misses the queue exactly when it ends before the first packet |
| JitSlot.SlotEarliest | clusterduck/src/jitqueue.c:206-235 | the slot chosen is the earliest behind any queued packet that collides with none, in distances that do not wrap |
| JitSlot.AsapUnblockedIff | clusterduck/src/jitqueue.c:188-239 | for any ordered, separated queue in the half range: no queued packet blocks the timestamp chosen exactly unless there is no room, and it is at least 80 ms ahead unless it is the place behind the last packet and wraps |
| JitSlot.ClassCAcceptedIff | clusterduck/src/jitqueue.c:188-337 | a Class C enqueue on a non-full queue, from the queue before the call: too late if and only if ASAP and every gap are taken and the last slot wraps to at most 42.5 ms ahead; accepted if and only if not that and the last slot does not reach around to the first packet; nothing in the packet changes but its mode and timestamp |
| JitSlot.SlotBeyondIff | clusterduck/src/jitqueue.c:188-239 | the slot chosen lies at or beyond a limit if and only if ASAP and every slot before the limit are taken and the last slot does not wrap to less |
| JitSlot.AsapClear | clusterduck/src/jitqueue.c:196-234 | an immediate downlink is never placed within 40 ms before a queued packet, a beacon included |
| JitSlot.ClassCAccepted | clusterduck/src/jitqueue.c:188-337 | it returns OK whenever the reservations of each queued packet and of the new one together fit into the counter period |
| JitSlot.OneQueuedIff | clusterduck/src/jitqueue.c:206-315 | behind one queued packet it is too late when the slot wraps to at most 42.5 ms ahead, and otherwise refused exactly when both reservations with their margins do not fit into 2^32 us |
| JitSlot.TwoLongestRefused | clusterduck/src/jitqueue.c:206-315 | two packets with the longest LoRa preamble: the second is refused although 31 places are free |
| JitSlot.ThirdTooLate | clusterduck/src/jitqueue.c:206-253 | three immediate downlinks at clock 0: two are accepted, and the third, of 2 ms, is refused as too late although 30 places are free |
| JitProtocol.PeekCounts | clusterduck/src/jitqueue.c:408-427 | purging keeps the beacon counter equal to the number of queued beacons |
| JitProtocol.EnqueueInv | clusterduck/src/clusterduckd.c:2954-3029 | accepting a downlink or a beacon keeps the system invariant, the beacons still wanted included |
| JitProtocol.PeekInv | clusterduck/src/clusterduckd.c:3172-3182 | a peek keeps the system invariant and returns a live index |
| JitProtocol.DequeueInv | clusterduck/src/clusterduckd.c:3182-3184 | a dequeue keeps the system invariant and removes the node at the pending index |
| JitProtocol.StepInv | clusterduck/src/clusterduckd.c:2951-3029 | every step of either thread keeps the invariant |
| JitProtocol.RunInv | clusterduck/src/clusterduckd.c:2951-3184 | in every interleaving: beacon counter exact and at most 3, at most 32 packets, queue ordered and separated, pending index live, accepted packets equal queued plus dequeued plus purged |
| JitProtocol.RunAtMostThree | clusterduck/src/clusterduckd.c:2951-3184 | in every reachable state at most 3 beacons and at most 32 packets are queued |
| JitProtocol.RunBuilt | clusterduck/src/clusterduckd.c:2951-3184 | in every interleaving each queued node carries the delays computed from its own packet |
| JitProtocol.RunEmissionsDisjoint | clusterduck/src/clusterduckd.c:2951-3184 | in every reachable queue the emissions of LoRa downlinks are disjoint |
| JitProtocol.NewcomerLater | clusterduck/src/jitqueue.c:241-292 | what is accepted with a clock reading older than a peek by at most the tolerance comes after what the peek chose |
| JitProtocol.BetweenKeepsPending | clusterduck/src/jitqueue.c:317-328 | an enqueue between a peek and its dequeue leaves the peeked packet at its index |
| JitProtocol.DequeuesPeeked | clusterduck/src/clusterduckd.c:3180-3184 | whatever is enqueued in between within the tolerance, the dequeue removes exactly the packet that was peeked |
| JitStale.OvertakesIff | clusterduck/src/clusterduckd.c:3180-3184 | a run in which an accepted Class A or B packet makes the dequeue remove another packet than the one peeked exists if and only if its clock reading is older than the peek's by more than the tolerance, 3502 us plus the pre-delay that counts and its own reservation |
| JitStale.WithinTolerance | clusterduck/src/clusterduckd.c:3180-3184 | in no run does that happen within the tolerance |
| JitStale.BeyondTolerance | clusterduck/src/clusterduckd.c:3180-3184 | the run in which it happens, for every larger age up to 500 s and from any peek time |
| JitTimely.PeekChooses | clusterduck/src/jitqueue.c:399-449 | a timely peek purges nothing, what it chooses is due within 40 ms, and nothing else is due before the next peek must come |
| JitTimely.TimedStepInv | clusterduck/src/clusterduckd.c:3172-3184 | every step of a timely run keeps the timing invariant |
| JitTimely.EveryPacketInTime | clusterduck/src/clusterduckd.c:3172-3184 | in every run whose pace suffices nothing is purged, every accepted packet, beacons included, is either queued or was handed over between 0 and 40 ms before it is due, and it has been handed over once it is due before the next peek must come |
| JitTimely.HandedOverOnce | clusterduck/src/clusterduckd.c:3180-3184 | every acceptance is a new entry and every dequeue hands over an entry not handed over before |
| JitTimely.ImmediateAcceptedIff | clusterduck/src/clusterduckd.c:3083-3118 | in a timely run, with a free place and no dequeue outstanding, an immediate downlink is refused if and only if, before the call, ASAP and every gap are taken and the place behind the last packet reaches around the counter to the first or wraps to at most 42.5 ms ahead |
| JitTimely.ImmediateAccepted | clusterduck/src/clusterduckd.c:3083-3118 | so it is accepted whenever its reservation and any queued one together last at most 3770 s, at a slot 512 s or more ahead exactly when nothing closer is free |
| JitTimely.ImmediateStaysIff | clusterduck/src/clusterduckd.c:3083-3118 | an accepted immediate downlink is still queued after a peek with the same clock reading if and only if something less than 512 s ahead was free, the last slot included when it wraps |
| JitTimely.LegalRunShort | clusterduck/src/clusterduckd.c:2951-3184 | in every run of packets with legal datarates no reservation exceeds the bounds of these lemmas |
| JitTimely.NewcomerClear | clusterduck/src/jitqueue.c:196-234 | from any state of a timely run, a newcomer leaves no beacon within 40 ms behind an immediate downlink, whichever of the two is queued first |
| JitSpacing.NeverPurgesIff | clusterduck/src/clusterduckd.c:3172-3184 | no run at a given pace ever purges a packet if and only if peeks come every 40 ms and, with beacons and Class A downlinks together, twice the spacing is at most 42,501 us plus the shortest Class A reservation |
| JitSpacing.DownlinkLost | clusterduck/src/clusterduckd.c:3172-3184 | a run that loses a downlink when peeks are further apart than 40 ms |
| JitSpacing.BeaconLost | clusterduck/src/clusterduckd.c:3172-3184 | a run that loses a beacon behind a Class A downlink when the pace does not suffice |
| JitOverlap.NewcomerGap | clusterduck/src/jitqueue.c:241-253 | in every timely run a newcomer is due at least 2502 us after everything handed over |
| JitOverlap.GapIsTight | clusterduck/src/jitqueue.c:241-315 | from any start time and for any two packets, a run exists in which that gap is exactly 2502 us |
| JitOverlap.OverlapIff | clusterduck/src/jitqueue.c:241-315 | a timely run in which a newcomer is due while a given LoRa frame, handed over before, is still on air exists if and only if the frame lasts longer than 2502 us |
| JitOverlap.ImmediateGap | clusterduck/src/jitqueue.c:188-239 | in every timely run of legal packets an immediate newcomer is due at least 40,001 us after everything handed over |
| JitOverlap.ImmediateGapIsTight | clusterduck/src/jitqueue.c:188-239 | a run of two immediate downlinks meets that gap, from any start time |
| JitOverlap.ImmediateOverlapIff | clusterduck/src/jitqueue.c:188-239 | a run in which an immediate newcomer is due while a given LoRa frame is still on air exists if and only if the frame lasts longer than 40,001 us |
| RxFrame.FirstSync | libloragw/src/loragw_sx1302_rx.c:175-196 | nothing before the result is a syncword, and the result is one unless none is left |
| RxFrame.CountBounded | libloragw/src/loragw_sx1302_rx.c:203-222 | frames take at least 23 bytes each, so 4096 bytes hold at most 179 frame starts |
| RxFrame.PopFits | libloragw/src/loragw_sx1302_rx.c:243-285 | a popped packet is one whole frame inside the buffer |
| RxFrame.SumIsTotal | libloragw/src/loragw_sx1302_rx.c:274-277 | the 8-bit checksum is the sum of all bytes modulo 256 |
| RxFrame.PopPlain | libloragw/src/loragw_sx1302_rx.c:243-359 | error, warning or packet, byte by byte: syncword, truncated frame, checksum, and the ranges of modem, channel and spreading factor, both ways |
| RxFrame.SumUpdate | libloragw/src/loragw_sx1302_rx.c:274-277 | changing a byte changes the 8-bit sum by the same amount |
| RxFrame.CorruptByte | libloragw/src/loragw_sx1302_rx.c:255-285 | changing any byte of a frame other than syncword, length and metric count makes the pop warn |
| RxRoundTrip.FreqOffsetBack | libloragw/src/loragw_sx1302_rx.c:303-306 | the signed 20-bit frequency offset is read back from its three bytes |
| RxRoundTrip.PopEncoded | libloragw/src/loragw_sx1302_rx.c:233-371 | popping an encoded frame anywhere in the buffer returns the packet it was made from |
| RxRoundTrip.CountChained | libloragw/src/loragw_sx1302_rx.c:203-222 | over adjoining frames the counting walk finds each of them |
| RxRoundTrip.PopChained | libloragw/src/loragw_sx1302_rx.c:233-371 | over adjoining frames the pops return each packet in order and then an error |
| RxRoundTrip.ResyncSkipsPrefix | libloragw/src/loragw_sx1302_rx.c:175-201 | a prefix in which no syncword starts is skipped exactly |
| RxRoundTrip.RoundTrip | libloragw/src/loragw_sx1302_rx.c:169-371 | resynchronising, counting and popping the frames of any packets gives these packets back |
| RxBuffer.RxBuffer.constructor | libloragw/src/loragw_sx1302_rx.c:100-111 | a new buffer is empty |
| RxBuffer.RxBuffer.Delete | libloragw/src/loragw_sx1302_rx.c:115-125 | size, index and packet count are reset |
| RxBuffer.RxBuffer.Fetch | libloragw/src/loragw_sx1302_rx.c:129-229 | keeps the bytes from the first syncword on and counts their frames, or discards everything; a failed transfer leaves the array cleared but for the bytes it delivered; from an empty count, the count equals the walk and is at most 179 |
| RxBuffer.UsableIff | libloragw/src/loragw_sx1302_rx.c:167-222 | bytes are kept if and only if there are at least 23, they hold a syncword and frame after frame can be walked from the first one on |
| RxBuffer.MovedPlain | libloragw/src/loragw_sx1302_rx.c:151-201 | every byte of the array after a fetch: those from the syncword on, what they were moved over behind them, zeros where nothing was read |
| RxBuffer.RxBuffer.Load | libloragw/src/loragw_sx1302_rx.c:155-222 | storing, sanity checks, resynchronisation and counting of the fetched bytes |
| RxBuffer.RxBuffer.FindSync | libloragw/src/loragw_sx1302_rx.c:175-192 | the loop finds the first syncword |
| RxBuffer.RxBuffer.KeepFrom | libloragw/src/loragw_sx1302_rx.c:197-222 | the bytes from the syncword on become the buffer when they can be walked, otherwise the buffer is emptied |
| RxBuffer.RxBuffer.MoveDown | libloragw/src/loragw_sx1302_rx.c:197-201 | the bytes from the syncword on are moved to the start |
| RxBuffer.RxBuffer.CountPackets | libloragw/src/loragw_sx1302_rx.c:203-222 | succeeds exactly when the walk does, and adds its number of frames to the 8-bit count |
| RxBuffer.RxBuffer.Pop | libloragw/src/loragw_sx1302_rx.c:233-371 | returns what the frame at the index holds; only a packet advances the index by one frame and the count by one, so the count stays what the walk finds |
| RxBuffer.RxBuffer.Examine | libloragw/src/loragw_sx1302_rx.c:243-359 | error, warning or packet, from syncword, length, checksum and range checks |
| RxBuffer.RxBuffer.SumBytes | libloragw/src/loragw_sx1302_rx.c:274-277 | the loop computes the 8-bit sum of the stretch |
| RxBuffer.RxBuffer.ReadPacket | libloragw/src/loragw_sx1302_rx.c:287-318 | every field is read from its place in the frame |
| RxBuffer.FetchRoundTrip | libloragw/src/loragw_sx1302_rx.c:129-371 | for any packets behind any prefix without syncword, fetch keeps exactly the frames, counts them, and the pops return the packets in order and then an error |
| MergePackets.SameSymmetric | libloragw/src/loragw_hal.c:277-296 | being the same packet does not depend on the order, across counter roll-over too |
| MergePackets.SameIff | libloragw/src/loragw_hal.c:277-296 | two receptions count as the same packet if and only if they are at most 24 us apart in true time, across roll-over too, on the same channel with the same datarate and payload |
| MergePackets.RemovePkt | libloragw/src/loragw_hal.c:300-321 | an index past the packets is refused, otherwise the last packet takes the removed one's place |
| MergePackets.FirstDuplicate | libloragw/src/loragw_hal.c:379-386 | nothing before the result is a duplicate of packet j, and the result, if any, is one |
| MergePackets.FindDuplicate | libloragw/src/loragw_hal.c:379-386 | the inner loop finds that first duplicate |
| MergePackets.DropDuplicate | libloragw/src/loragw_hal.c:386-426 | of two duplicates the one the CRC and fine timestamp rule rejects is removed |
| MergePackets.RemoveDuplicates | libloragw/src/loragw_hal.c:376-442 | the restarting loop terminates and leaves what the specification function leaves |
| MergePackets.DedupKeeps | libloragw/src/loragw_hal.c:376-442 | whatever single removals by the preference rule keep, the whole loop keeps |
| MergePackets.DedupNoneSame | libloragw/src/loragw_hal.c:376-442 | no two same packets are left |
| MergePackets.DedupRepresents | libloragw/src/loragw_hal.c:376-442 | what is left is part of the input, and every packet of the input is linked to one left |
| MergePackets.AloneSurvives | libloragw/src/loragw_hal.c:376-442 | a packet with no other reception in the input is left |
| MergePackets.RemovalKeepsLinks | libloragw/src/loragw_hal.c:386-426 | one removal keeps every packet of the input linked to a packet still held |
| MergePackets.Merge | libloragw/src/loragw_hal.c:344-446 | what is left is the deduplicated input, sorted in a half range: part of the input, no two receptions of one packet within 24 us, every packet received only once, and every packet of the input linked to one left by a chain of packets each giving way to the next |
| MergePackets.ChainKeepsCrc | libloragw/src/loragw_hal.c:387-416 | with only good and bad CRCs, a chain that starts with a good CRC stays good |
| MergePackets.GoodCrcSurvives | libloragw/src/loragw_hal.c:387-416 | with only good and bad CRCs, a good packet is represented by a good survivor |
| MergePackets.ChainKeepsFineTime | libloragw/src/loragw_hal.c:399-410 | where the CRC does not decide, a fine timestamp is never lost along a chain |
| MergePackets.GoodGivesWayIff | libloragw/src/loragw_hal.c:387-410 | some good packet can give way to a packet that is not good if and only if that one's CRC is not bad |
| MergePackets.TwoMerged | libloragw/src/loragw_hal.c:376-442 | of two receptions a good CRC wins over a bad one; otherwise the first one fetched stays exactly when it has a fine timestamp |
| MergePackets.TwoGoodIff | libloragw/src/loragw_hal.c:387-410 | a good reception merged with another leaves a good one if and only if the other is good or bad, or the fine timestamps decide for the good one, in either order |
| MergePackets.NoCrcLosesGood | libloragw/src/loragw_hal.c:387-410 | a good packet without fine timestamp is lost to its copy whose CRC was not checked |
| MergePackets.GoodKeptIff | libloragw/src/loragw_hal.c:344-446 | over all inputs with given statuses every good packet is represented by a good survivor, if and only if there is no status other than good and bad |
| MqttRing.RunInOrder | clusterduck/src/clusterduckd.c:708-821 | in every run the accepted messages are, in order, those removed followed by at most 100 pending |
| MqttRing.EvictedOnlyWhenFull | clusterduck/src/clusterduckd.c:711-777 | a step removes at most the oldest message; queueing evicts it exactly when 100 are pending, a dequeue takes it exactly when any is |
| MqttRing.QueuedIsNewest | clusterduck/src/clusterduckd.c:725-741 | a queued message becomes the newest, unless there is no memory for it |
| MqttRing.TopicKept | clusterduck/src/clusterduckd.c:726-727 | of a topic the first 127 characters are kept |
| MqttRing.SessionEnds | clusterduck/src/clusterduckd.c:750-821 | a publishing session with whatever other threads queue in between is a run that extends the history, and ends with the queue empty or with a refusal |
| MqttRing.StopsAtRefusal | clusterduck/src/clusterduckd.c:795-799 | whatever other threads queue, among the events of a session a refusal is only ever the last one |
| MqttRing.DrainsAll | clusterduck/src/clusterduckd.c:755-817 | with no calls by others and no refusal everything pending leaves in order, each message with its own outcome |
| MqttRing.DrainsToRefusal | clusterduck/src/clusterduckd.c:755-817 | with no calls by others and a first refusal, exactly the messages up to the refused one leave, and the others stay in order |
| MqttRing.Slot | clusterduck/src/clusterduckd.c:721-740 | the slot of the i-th message is (tail + i) mod 100 |
| MqttRing.MqttRing.constructor | clusterduck/src/clusterduckd.c:205-213 | the ring starts empty |
| MqttRing.MqttRing.DropOldest | clusterduck/src/clusterduckd.c:763-777 | the oldest message leaves and the ring still holds the others in order |
| MqttRing.MqttRing.Store | clusterduck/src/clusterduckd.c:725-741 | with memory the message becomes the newest, without it nothing is added |
| MqttRing.MqttRing.QueueMessage | clusterduck/src/clusterduckd.c:708-747 | queueing on the ring is one more queueing event of its run, eviction and failed allocation included, so the ring stays in order |
| MqttRing.MqttRing.QueueAll | clusterduck/src/clusterduckd.c:708-747 | calls of other threads are so many queueing events |
| MqttRing.MqttRing.DequeueMessage | clusterduck/src/clusterduckd.c:757-777 | the oldest message leaves with its outcome, one more dequeue event of the run |
| MqttRing.MqttRing.PublishNext | clusterduck/src/clusterduckd.c:755-817 | one iteration of the publisher after the calls of other threads |
| MqttRing.MqttRing.PublishQueued | clusterduck/src/clusterduckd.c:750-821 | publishing while other threads queue between the iterations terminates, is the specified session, keeps the ring in order, and returns the number of messages published in it |
| GpsTime.Synchroniser.constructor | libloragw/src/loragw_gps.c:669-671 | no attempt was aberrant so far |
| GpsTime.Synchroniser.GpsSync | libloragw/src/loragw_gps.c:664-731 | reference and flags change as specified; a failure leaves the reference alone, a success leaves a frequency error within 10 ppm |
| GpsTime.ThreeStrikes | libloragw/src/loragw_gps.c:694-728 | of any three consecutive attempts one succeeds |
| GpsTime.ResetIff | libloragw/src/loragw_gps.c:694-731 | along every run an aberrant pulse, judged against the reference in force, moves the reference if and only if the two attempts before it were aberrant too; otherwise the reference stays exactly as it was |
| GpsTime.AberrantPlain | libloragw/src/loragw_gps.c:675-706 | in whole numbers: a pulse is plausible if and only if receiver time advanced and the counter did by as much within 10 ppm |
| GpsTime.SuccessMeans | libloragw/src/loragw_gps.c:675-722 | after a plausible pulse the frequency error makes the counter advance equal the UTC time elapsed; a reset keeps an error that was in range |
| GpsTime.StaysWithin10Ppm | libloragw/src/loragw_gps.c:694-728 | once within 10 ppm, the frequency error stays there whatever attempts follow |
| GpsTime.UsableAfterThree | libloragw/src/loragw_gps.c:664-745 | after any three attempts conversions accept the reference for good |
| GpsTime.TimeIs | libloragw/src/loragw_gps.c:797-809 | nanoseconds come out in [0, 1e9) and less than one nanosecond is lost |
| GpsTime.ConvertsIff | libloragw/src/loragw_gps.c:735-833 | conversions are refused exactly without a reference or beyond 10 ppm |
| GpsTime.BothPlain | libloragw/src/loragw_gps.c:735-833 | GPS and UTC time are the last whole nanosecond before the counter value, counted from the GPS and from the UTC time of the reference |
| GpsTime.TicksPlain | libloragw/src/loragw_gps.c:763-833 | a time becomes the last whole tick of a counter that runs fast by the frequency error |
| GpsTime.RoundTrip | libloragw/src/loragw_gps.c:786-833 | converting back gives the count if no fraction of a nanosecond was cut, and the count minus 1 otherwise |
| GpsTime.GpsAndUtcRoundTrip | libloragw/src/loragw_gps.c:735-833 | both pairs of conversions round trip alike on every valid reference |
| GpsWindow.UbxRecognised | libloragw/src/loragw_gps.c:393-502 | a well-formed UBX message is recognised with its size, whatever follows |
| GpsWindow.SumOfSumsIs | libloragw/src/loragw_gps.c:431-436 | the second checksum byte is the sum that counts each byte once for every byte from it on, modulo 256 |
| GpsWindow.UbxPoll | libloragw/src/loragw_gps.c:393-436 | the eight bytes of a NAV-TIMEGPS poll |
| GpsWindow.UbxCorrupted | libloragw/src/loragw_gps.c:426-493 | changing one byte of a UBX message outside sync and length makes it invalid |
| GpsStream.FrameConsumed | clusterduck/src/clusterduckd.c:3335-3393 | a whole message at the front is recognised and removed whole, and what is recognised and kept besides is what its followers alone would give |
| GpsStream.UbxIsFrame | libloragw/src/loragw_gps.c:393-502 | every well-formed UBX message is recognised with its size whatever follows |
| GpsStream.NmeaIsFrame | clusterduck/src/clusterduckd.c:3358-3377 | so is every NMEA sentence with its checksum |
| GpsStream.WindowBehindNoise | clusterduck/src/clusterduckd.c:3319-3400 | for every stream of messages that carry no others, behind noise without sync characters, and every split into reads: the frames recognised so far are exactly the messages that arrived whole, in order, and the buffer holds what has arrived of the next one behind at most some of its noise, dropped by eights |
| GpsStream.WindowInStep | clusterduck/src/clusterduckd.c:3319-3400 | without noise the buffer holds exactly what has arrived of the next message |
| GpsSplit.AlwaysBufferedIff | clusterduck/src/clusterduckd.c:3335-3400 | every incomplete part of a message stays buffered under all splits if and only if no frame is recognised in a proper prefix and the message has at most 121 bytes |
| GpsSplit.RecognisedBehindIff | clusterduck/src/clusterduckd.c:3335-3400 | behind given noise the message is recognised under all splits if and only if no frame is recognised in a proper prefix and its length plus the noise length modulo 8 is at most 121 |
| GpsSplit.AlwaysRecognisedIff | clusterduck/src/clusterduckd.c:3335-3400 | from an empty buffer it is recognised under all splits if and only if no frame is recognised in a proper prefix and it has at most 121 bytes |
| GpsSplit.ResynchronisesIff | clusterduck/src/clusterduckd.c:3335-3400 | it is recognised behind whatever noise without sync characters, under all splits, if and only if no frame is recognised in a proper prefix and it has at most 114 bytes |
| GpsStream.NmeaSteady | clusterduck/src/clusterduckd.c:3358-3400 | NMEA sentences of at most 121 characters without inner sync characters meet that condition |
| GpsStream.UbxSteady | clusterduck/src/clusterduckd.c:3339-3400 | so do UBX messages of at most 121 bytes without inner sync characters |
| GpsSplit.NestedNotQuiet | clusterduck/src/clusterduckd.c:3346-3386 | a UBX message that carries a whole frame does not |
| GpsSplit.NestedLost | clusterduck/src/clusterduckd.c:3346-3386 | read byte by byte, such a message is never recognised |
| NmeaFrame.XorIsBitwise | libloragw/src/loragw_gps.c:131-139 | each bit of the exclusive or is set where exactly one operand has it |
| NmeaFrame.ChecksumIsParity | libloragw/src/loragw_gps.c:131-139 | each bit of the checksum is the parity of that bit over all bytes |
| NmeaFrame.ChecksumDiffers | libloragw/src/loragw_gps.c:131-139 | altering one byte always alters the exclusive or |
| NmeaFrame.NmeaRecognised | libloragw/src/loragw_gps.c:116-192 | a sentence with its own checksum is accepted |
| NmeaFrame.NmeaAcceptedIff | libloragw/src/loragw_gps.c:116-192 | exactly the sentences of 8 to 255 characters are accepted whose first star is followed by the checksum of what precedes it and at least one more character |
| NmeaFrame.NmeaAltered | libloragw/src/loragw_gps.c:116-192 | an altered byte between dollar and star, itself not a star, is rejected |
| NmeaFrame.NmeaAlteredIff | libloragw/src/loragw_gps.c:116-192 | an altered byte passes if and only if it is a star followed by the checksum of what precedes it |
| NmeaFrame.NmeaDigitAltered | libloragw/src/loragw_gps.c:167-192 | an altered checksum digit is rejected |
| NmeaFrame.NmeaChecksum | libloragw/src/loragw_gps.c:116-146 | the loop gives the position behind the star, or -1 without one, and the two hexadecimal digits of the exclusive or |
| NmeaFrame.ValidateNmea | libloragw/src/loragw_gps.c:167-192 | true exactly when a star is found, three more characters follow, and the first two are the checksum |
| NmeaFrame.ParseNmea | libloragw/src/loragw_gps.c:506-526 | sentences of 8 to 255 characters with a matching checksum are accepted, all others are not |
| GpsWindow.RecogniseUbx | libloragw/src/loragw_gps.c:393-502 | kind and size are those of the framing rules |
| GpsWindow.Fletcher | libloragw/src/loragw_gps.c:431-436 | the loop computes the sum and the sum of sums |
| GpsWindow.FrameFits | clusterduck/src/clusterduckd.c:3339-3384 | a recognised frame never extends past the bytes received |
| GpsWindow.EndFrom | clusterduck/src/clusterduckd.c:3335-3387 | the scan terminates and ends within the buffer, at or after the last frame found before |
| GpsWindow.WindowIsSuffix | clusterduck/src/clusterduckd.c:3319-3400 | for every stream and every split into reads the buffer holds at most 120 bytes before a read, a contiguous suffix of what was received |
| GpsWindow.GpsBuffer.constructor | clusterduck/src/clusterduckd.c:3308-3317 | the buffer starts empty |
| GpsWindow.GpsBuffer.OnRead | clusterduck/src/clusterduckd.c:3319-3400 | one round recognises the frames of the buffer with the new bytes and keeps exactly the bytes behind the last one, less the oldest 8 when the next read might not fit |
| GpsWindow.GpsBuffer.Scan | clusterduck/src/clusterduckd.c:3335-3387 | the loop finds every frame of the scan and the end of the last one |
| GpsWindow.GpsBuffer.MoveDown | clusterduck/src/clusterduckd.c:3389-3399 | the bytes from an index on are moved to the start |
| GpsWindow.RecogniseFrame | clusterduck/src/clusterduckd.c:3336-3377 | the size of the UBX or NMEA frame at the read index, or 0 |

## Left out

- The order of nodes when queued times span more than half the counter range: the sort then only promises a permutation, and the run theorems take the half range as a hypothesis on what is enqueued.
- The NULL checks on out-pointers (`jit_dequeue`, `jit_peek`, the RX buffer and the conversions): results cannot be missing here.
- Emission overlap with packets already handed to the concentrator: the queue does not prevent it (see `OverlapIff` and `ImmediateOverlapIff`), and the TX status check of `thread_jit` rests on hardware state.
- JitQueue.JitQueue.Enqueue: FSK time on air is taken over exact numbers with the default sync word of 3 bytes, and a zero FSK datarate, undefined in C, reserves nothing.
- RxBuffer.RxBuffer.Fetch: a FIFO size above 4096 is excluded, and what lies in memory behind the array is an arbitrary fixed sequence.
- RxBuffer.RxBuffer.Pop: the packet structure partly filled before a warning or an error is not modelled, nor is the overrun of the metric array when a frame announces more than 127 metrics.
- MergePackets.Merge: a timestamp difference of exactly 2^31, where `abs` is undefined in C, counts as far apart.
- GpsTime.RoundTrip: doubles are exact reals, and converting a time before the reference, undefined in C, wraps.
- GpsWindow.GpsBuffer.MoveDown: the overlapping `memcpy` of the source is taken to move the bytes as intended.
- NMEA field parsing, calendar conversion, the decoding of UBX NAV-TIMEGPS fields: library dependent or plain field copying.
- Beacon payload building and beacon time selection, JSON configuration, statistics, signals and logging: no hard property.
- Concentrator set-up and calibration, USB and SPI transport, the timestamp counter, `sx1302_parse` and the CDP routing: hardware scripts or code outside these files.
