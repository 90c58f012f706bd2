# Verification of the Bifrost SDK's loss recovery, framing, storage and scheduling code

This project models the stateful core of the SDK in Dafny and proves what that code keeps over whole
runs. `dafny verify dfyconfig.toml` checks all of it.

**RTP loss recovery.** `SeqArithmetic` holds the circular comparators and what they are worth: an order
on numbers less than half a circle apart, no order at all on the whole circle. `RetransmissionBuffer` is
the deque with holes that keeps sent packets, branch by branch, as a class and as functions on its
slots; `RetransmissionTheorems` proves its layout, its timeline and its size limit, and
`RetransmissionMap` that over every run, whatever the timestamps, it is a map from sequence number to
packet. `NackBitmask` and `RtpStreamSender` answer a NACK from it (section 6.2.1 of RFC 4585). On the
receiving side `NackTracking` describes the search for lost packets on numbers that never wrap,
`NackTheorems` and `NackRuns` prove its bounds and its timing over every run, and `NackGenerator` is the
16-bit class with its ordered containers, proved to do the same step by step. `RtpStream` and
`RtpStreamReceiver` count packets across wraps (appendices A.1 and A.3 of RFC 3550) and gate the
generator. `SeqManager` renumbers a stream with dropped packets without leaving gaps. `RateMeter` and
`RateCalculator` measure the bit rate with a ring of buckets, and `PacketQueue` puts packets back into
order between two threads.

**Storage and framing.** `CopyOnWrite` proves that handles on shared storage look like independent byte
strings. `WebSocketFrames` describes framing and parsing (sections 5.2 to 5.4 of RFC 6455) as functions
on bytes, `MemoryBuffer` is the growing buffer below them, and `WebSocketHandle` is the framer and the
incremental parser in place. `Sha1` is the digest of FIPS 180-4 (sections 5.1.1 and 6.1.2) and
`Sha1Example` a known value of it; `Sha1Schedule` and `Sha1Digest` are the two implementations in the
SDK, both proved to compute it for every message and every cutting of it into pieces.

**Scheduling.** `PointerHeap` is the binary heap on left, right and parent pointers that runs the
timers. `ThreadPool` states the thread pool as the atomic steps its mutexes make of it;
`ThreadPoolTheorems` and `ThreadPoolItems` prove that every interleaving of any number of workers, loops
and cancellations keeps the counters, the wake-ups and every work item.

## What turned out otherwise than expected

The model follows the code where code and expectation part. Each point is proved: the condition that
decides it, for all inputs, and where that does not show it at once, an input the code can receive.

- `RemoveOldest(n)` of the retransmission buffer removes one item and the blanks after it, whatever n
  is, so a packet that skips numbers can make the buffer outgrow its limit (`SizeLimitKeptExactly`,
  `LimitOutgrown`). In the sender's buffer for 2500 items, thirteen packets 2499 numbers apart are enough
  to pass 32768 slots, and `Get` then misses the packet just stored (`SkipsPassHalfTheCircle`;
  `GetFindsEverythingExactly` says from where on).
- A packet whose timestamp is so far ahead that the front looks newer than it is stored all the same,
  and breaks the timeline (`TimelineKeptExactly`, `JumpBreaksTimeline`). The map is not touched by it
  (`InsertRefinesMap`).
- The branch for a packet between two stored ones compares raw 32-bit values: where the timestamps wrap
  inside the gap, no packet for the gap is accepted (`GapAcceptsExactly`, `WrapInGapRefuses`).
- Of a masked WebSocket frame without payload the parser leaves the key behind, to be taken for the
  next frame (`FrameRoundTripsExactly`). The extension bits are always read as 0 (`ReadStart`), although
  the header file documents them.
- A ring of a rate calculator is long enough for its window only if the window has no more milliseconds
  than the ring has items or divides evenly among them (`RingLengthExactly`, `RingSufficesExactly`).
  At a call made while the clock reads less than one window everything counted before is forgotten. So the
  error bound holds for what was counted from the last such call on (`SumIsClose`, over every run whose
  clock does not step back). For everything counted it holds if nothing forgotten lies in the shortened
  window, and fails if with the forgotten more lies there than was counted in the whole window since
  (`BoundOnEverything`, `EarlyStartIsMissed`). Asked while the clock reads less than one window, the sum is
  0, and the bound holds exactly if nothing was counted that it has to include (`EarlyBoundExactly`,
  `EarlySizeIsMissed`). Asked at time 0 the rate is always 0 (`GetRate`).
- A stream that starts at sequence number 0 is counted one cycle too long (`ExpectedExactly`), and a
  re-synchronisation backwards parts the stream from its NACK generator (`ResyncCouplesExactly`,
  `BackwardResyncParts`).
- `SetData`, `AppendData` and `Clear` of a copy-on-write buffer can leave storage without capacity, which
  its own consistency check forbids (`CopyOnWriteBuffer.AppendData`, `SetData`, `Clear` say exactly when);
  the other operations keep it.
- A packet that reaches the packet queue when its number has been delivered blocks the queue for good,
  and nothing else does (`LateBlocksExactly`, `LateBlocksForGood`, `RepeatAfterDeliveryIsLate`); a
  repeat before delivery is harmless (`DeliveredExactly`). A packet too far from the highest number is
  stored under a wrong one (`TrueExactly`).
- `membuf_remove` puts a zero behind the last byte, and misses the buffer if that is full and nothing was
  to be taken out (`MemBuf.Remove`); the parser never calls it so.
- An item of the thread pool that is cancelled twice is put into its loop's queue again; it still has
  exactly one place (`CancelAgainPlaces`).

## Model

| member | source | states |
|---|---|---|
| SeqArithmetic.ComparatorsAreTotal | core/src/rtc/seq_manager.cpp:15-25 | for every range, unequal numbers are ordered exactly one way, ties at half the circle included, and lower and higher are mirror images |
| SeqArithmetic.UnwrappedOrder | core/src/rtc/seq_manager.cpp:15-19 | two counters less than half a circle apart compare, wrapped, exactly as they do unwrapped |
| SeqArithmetic.WindowOrder | core/src/rtc/seq_manager.cpp:15-19 | on keys within half a window of a newest one the comparator is the strict total order by distance |
| SeqArithmetic.NotTransitiveOnTheWholeCircle | core/src/rtc/seq_manager.cpp:15-19 | three numbers each lower than the next, in a circle |
| RetransmissionBuffer.RtpRetransmissionBuffer.Get | core/src/rtc/rtp_retransmission_buffer.cpp:34-56 | returns what the look-up on the slots gives, which GetRefinesLookup ties to a map |
| RetransmissionBuffer.RtpRetransmissionBuffer.Clear | core/src/rtc/rtp_retransmission_buffer.cpp:352-367 | leaves nothing |
| RetransmissionBuffer.RtpRetransmissionBuffer.RemoveOldest | core/src/rtc/rtp_retransmission_buffer.cpp:389-421 | the front item and the blanks after it go, the layout stays |
| RetransmissionBuffer.RtpRetransmissionBuffer.RemoveOldestItems | core/src/rtc/rtp_retransmission_buffer.cpp:423-431 | one removal for any number above 0 |
| RetransmissionBuffer.RtpRetransmissionBuffer.ClearTooOldByTimestamp | core/src/rtc/rtp_retransmission_buffer.cpp:433-472 | removes up to the first item that is not too old (in ticks: AgeInTicks), and says whether anything went |
| RetransmissionBuffer.RtpRetransmissionBuffer.Insert | core/src/rtc/rtp_retransmission_buffer.cpp:65-350 | all six branches: the new slots are the insertion function of the old ones, whose theorems follow |
| RetransmissionBuffer.RtpRetransmissionBuffer.InsertNewer | core/src/rtc/rtp_retransmission_buffer.cpp:144-207 | branch 4 with its room making, in place |
| RetransmissionBuffer.RtpRetransmissionBuffer.InsertOlder | core/src/rtc/rtp_retransmission_buffer.cpp:208-268 | branch 5, in place |
| RetransmissionBuffer.RtpRetransmissionBuffer.InsertBetween | core/src/rtc/rtp_retransmission_buffer.cpp:270-349 | branch 6 with its two searches for neighbours, in place |
| RetransmissionBuffer.BetweenIsInRange | core/src/rtc/rtp_retransmission_buffer.cpp:270-294 | whatever the size, a number not above the newest and not below the oldest addresses a slot of the buffer |
| RetransmissionTheorems.InsertKeepsLayout | core/src/rtc/rtp_retransmission_buffer.cpp:65-350 | after every insertion front and back are items and slot i holds the number i past the front or nothing |
| RetransmissionTheorems.InsertKeepsTimeline | core/src/rtc/rtp_retransmission_buffer.cpp:65-350 | stored timestamps unwrap in index order to one nondecreasing timeline no longer than the window |
| RetransmissionTheorems.TimelineKeptExactly | core/src/rtc/rtp_retransmission_buffer.cpp:113-207 | an insertion breaks that timeline if and only if a packet beyond the horizon is stored behind a front it does not follow |
| RetransmissionTheorems.GapAcceptsExactly | core/src/rtc/rtp_retransmission_buffer.cpp:292-349 | a gap takes a packet if and only if its time lies between its neighbours' and the raw timestamps do not wrap between these two |
| RetransmissionTheorems.ClearRemovesExactlyTheTooOld | core/src/rtc/rtp_retransmission_buffer.cpp:433-472 | with one timeline, exactly the items go whose distance in ticks to the newest timestamp, times 1000, is at least one millisecond more than the delay times the clock rate |
| RetransmissionBuffer.AgeInTicks | core/src/rtc/rtp_retransmission_buffer.cpp:459-472 | with a clock of 1 kHz or more, the truncating test in milliseconds is exactly a bound on the age in ticks |
| RetransmissionTheorems.AgeIsMonotone | core/src/rtc/rtp_retransmission_buffer.cpp:459-472 | the truncating age test never lets an older timestamp pass that it rejects for a younger one, and rejects exactly what lies beyond the delay in ticks |
| RetransmissionTheorems.SizeLimitKeptExactly | core/src/rtc/rtp_retransmission_buffer.cpp:165-206 | the limit on the size survives an insertion if and only if the packet does not need more room than one removal makes |
| RetransmissionTheorems.ConsecutiveNumbersFit | core/src/rtc/rtp_retransmission_buffer.cpp:165-206 | packets numbered consecutively never outgrow the limit |
| RetransmissionTheorems.LimitOutgrown | core/src/rtc/rtp_retransmission_buffer.cpp:423-431 | three packets in a buffer for three, and one that skips a number: four slots |
| RetransmissionMap.GetRefinesLookup | core/src/rtc/rtp_retransmission_buffer.cpp:34-56 | up to 32768 slots Get is the look-up in the map of the stored items, misses included |
| RetransmissionMap.GetFindsEverythingExactly | core/src/rtc/rtp_retransmission_buffer.cpp:34-56 | the number of slots, and at 32769 the place of the front, that decide whether Get finds all items |
| RetransmissionMap.PlaceRefinesMap | core/src/rtc/rtp_retransmission_buffer.cpp:144-349 | branches 4 to 6 are an operation on the map and its two ends, with no slots or indexes in it |
| RetransmissionMap.ClearRefinesMap | core/src/rtc/rtp_retransmission_buffer.cpp:433-457 | clearing, whatever the timestamps, drops from the map what lies nearer to the front than the first item that is not too old |
| RetransmissionMap.ClearKeepsYoung | core/src/rtc/rtp_retransmission_buffer.cpp:433-457 | with one timeline that is the restriction to what lies within the delay in ticks |
| RetransmissionMap.InsertRefinesMap | core/src/rtc/rtp_retransmission_buffer.cpp:65-350 | the whole insertion, into every buffer of up to 32768 slots and for every packet, is an operation on the map and its two ends |
| RetransmissionMap.InsertKeepsOthers | core/src/rtc/rtp_retransmission_buffer.cpp:65-350 | no insertion changes or brings in an entry under another number than the packet's |
| RetransmissionMap.InsertKeepsYoung | core/src/rtc/rtp_retransmission_buffer.cpp:113-142 | with one timeline and a packet inside the horizon, what an insertion clears is exactly what lies further from the newest timestamp than the delay in ticks |
| RetransmissionMap.InsertDropsExactlyTheOld | core/src/rtc/rtp_retransmission_buffer.cpp:65-350 | of the entries under other numbers an insertion that needs no room drops exactly those too far in ticks from the newest timestamp, and no insertion keeps one of these |
| RetransmissionMap.RunRefinesMap | core/src/rtc/rtp_retransmission_buffer.cpp:34-350 | over every run that stays within half the number circle, whatever its timestamps, the buffer is the map the packets make of it, and Get its look-up |
| RetransmissionMap.RunKeepsBounds | core/src/rtc/rtp_retransmission_buffer.cpp:65-350 | over every run of packets that stays clear of the two exact conditions, limit and timeline hold throughout |
| RetransmissionMap.RunStaysSound | core/src/rtc/rtp_retransmission_buffer.cpp:34-350 | over regular runs all of it: limit, timeline, map and look-up |
| RetransmissionMap.SkipsPassHalfTheCircle | core/src/rtc/rtp_retransmission_buffer.cpp:165-206 | 2500 consecutive packets and 13 to 25 that skip: the exact size, beyond 32768, and a Get that misses the packet just stored |
| RetransmissionMap.JumpBreaksTimeline | core/src/rtc/rtp_retransmission_buffer.cpp:459-472 | three packets after which there is no timeline |
| RetransmissionMap.WrapInGapRefuses | core/src/rtc/rtp_retransmission_buffer.cpp:292-349 | two packets between which no third is accepted, though its time lies between theirs |
| NackBitmask.RequestedExactly | core/src/rtc/rtp_stream_sender.cpp:141-200 | the loop asks for the pair's number and for 1 + k past it for each set bit k, and for nothing else |
| NackBitmask.RequestedAscends | core/src/rtc/rtp_stream_sender.cpp:141-200 | in increasing distance from the pair's number |
| NackBitmask.RequestedIsBrief | core/src/rtc/rtp_stream_sender.cpp:19-21 | at most 17 numbers, none twice, so that the container's 18 slots suffice |
| NackBitmask.CountIsByteOrderBlind | core/include/rtc/rtcp/nack_packet.h:50-60 | the announced count, taken on the mask in network byte order, is the number of numbers the loop visits |
| RtpStreamSender.ResendableExactly | core/src/rtc/rtp_stream_sender.cpp:141-200 | chosen are exactly the due items that Get finds under a requested number |
| RtpStreamSender.ResendableDistinct | core/src/rtc/rtp_stream_sender.cpp:141-200 | none twice |
| RtpStreamSender.RtpStreamSender.FillRetransmissionContainer | core/src/rtc/rtp_stream_sender.cpp:111-203 | the container holds the chosen items in order and ends with null; exactly these are marked as resent now and counted |
| RtpStreamSender.RtpStreamSender.DrainContainer | core/src/rtc/rtp_stream_sender.cpp:92-108 | hands over the packets up to the null, each with the source, number and timestamp its item remembers and the payload stored |
| RtpStreamSender.RtpStreamSender.ReceiveNack | core/src/rtc/rtp_stream_sender.cpp:78-109 | the packets of all pairs' answers in order, field by field, each at its own reading of the clock, the counters, and the resend time and count of every stored item |
| RtpStreamSender.AnswersExactly | core/src/rtc/rtp_stream_sender.cpp:78-203 | at one reading of the clock exactly these items are resent, each once: never resent or last resent more than a round trip ago, and found under a pair's number or one that a bit of its mask stands for |
| RtpStreamSender.AnswersAreTurns | core/src/rtc/rtp_stream_sender.cpp:84-108 | what a NACK packet is answered with is what its pairs are |
| RtpStreamSender.AnswersApart | core/src/rtc/rtp_stream_sender.cpp:161-180 | at whatever times the pairs are answered, one item goes out twice only more than a round trip apart |
| NackTracking.DropBelowKeeps | core/src/rtc/nack_generator.cpp:156-159 | dropping keeps exactly the numbers from a bound on |
| NackTracking.ShrunkIsFirstFitting | core/src/rtc/nack_generator.cpp:161-190 | the nested removal loops end, and drop up to the first key frame that leaves room or else up to the last |
| NackTracking.OverflowExactly | core/src/rtc/nack_generator.cpp:161-190 | the list is given up exactly when the new gap alone exceeds 1000 |
| NackTheorems.BatchIsDue | core/src/rtc/nack_generator.cpp:232-325 | a batch holds in order exactly the numbers due under its filter |
| NackTheorems.AfterBatchIsUpdated | core/src/rtc/nack_generator.cpp:232-325 | what was asked for has one retry more and the time noted, or is gone after the tenth; nothing else changes |
| NackTheorems.ExtendedList | core/src/rtc/nack_generator.cpp:152-206 | the extended list is ascending, recent, within 1000, and consists of old entries and new ones |
| NackTheorems.ReceiveKeepsSound | core/src/rtc/nack_generator.cpp:46-150 | every packet keeps all entries below the highest number, at most 10000 behind it and at most 1000; a key frame is asked for exactly after a gap of more than 1000 |
| NackRuns.EveryRun | core/src/rtc/nack_generator.cpp:46-355 | over every run: the bounds, no listed packet has arrived, and each request is at the right time (never before its delay, repeats at least a round trip apart) and at most the tenth |
| NackRuns.AtMostTen | core/src/rtc/nack_generator.cpp:261-300 | requests that are each at the right time are at most ten for a number |
| NackRuns.NeverSentIsNext | core/src/rtc/nack_generator.cpp:240-301 | an entry never asked for and past its delay is in the next batch, timer's or packet's |
| NackRuns.TimerAsksExactly | core/src/rtc/nack_generator.cpp:240-301 | the timer asks for a listed entry if and only if it is past its delay and was never asked for or last the wait ago |
| NackRuns.TenthIsLast | core/src/rtc/nack_generator.cpp:240-301 | a request takes its packet off the list if and only if it is the tenth for it |
| NackRuns.RecentIsKept | core/src/rtc/nack_generator.cpp:150-205 | a newer packet that needs no room keeps listed what is at most 10000 behind it |
| NackRuns.FoundExactly | core/src/rtc/nack_generator.cpp:71-99 | a packet counts as found exactly when it is listed and was asked for |
| NackGenerator.LowerBoundIsFirstFrom | core/src/rtc/nack_generator.cpp:156-159 | searching the ordered containers of 16-bit keys finds the place that numbers without wrap would give |
| NackGenerator.EmplacedInOrder | core/src/rtc/nack_generator.cpp:189-204 | in a half window the ordered list takes an entry in before the first higher number, and one already there changes nothing |
| NackGenerator.ComparatorOrdersWindow | core/include/rtc/nack_generator.h:85-87 | on all keys held the circular comparator is a strict total order |
| NackGenerator.NackGenerator.RemoveNackItemsUntilKeyFrame | core/src/rtc/nack_generator.cpp:208-230 | the loop in place does what the removal on plain numbers does |
| NackGenerator.NackGenerator.AddPacketsToNackList | core/src/rtc/nack_generator.cpp:152-206 | likewise for listing a gap |
| NackGenerator.NackGenerator.GetNackBatch | core/src/rtc/nack_generator.cpp:232-325 | likewise for a batch: what is asked, and what the list becomes |
| NackGenerator.NackGenerator.ReceivePacket | core/src/rtc/nack_generator.cpp:46-150 | one packet takes the generator through the step of the tracker on unwrapped numbers, results included |
| NackGenerator.NackGenerator.RequestsAreRight | core/src/rtc/nack_generator.cpp:46-355 | in every run of the 16-bit class each request was at the right time and at most the tenth, and no packet that arrived is listed |
| NackGenerator.NackGenerator.TimerAsksFor | core/src/rtc/nack_generator.cpp:240-301 | the same for the fields of the 16-bit class, with 100 ms while no round-trip time is known |
| NackGenerator.NackGenerator.OnTimer | core/src/rtc/nack_generator.cpp:345-355 | likewise for the timer |
| NackGenerator.NackGenerator.Reset | core/src/rtc/nack_generator.cpp:327-335 | back to the tracker before its first packet |
| NackGenerator.NackGenerator.UpdateRtt | core/include/rtc/nack_generator.h:63-65 | only the round-trip time changes |
| RtpStream.RtpStream.UpdateSequence | core/src/rtc/rtp_stream.cpp:63-127 | in order, wrapped, misordered, discarded or re-synchronised, on an unwrapped count |
| RtpStream.RtpStream.ReceiveStreamPacket | core/src/rtc/rtp_stream.cpp:28-61 | the same with the first packet, and the newest timestamp |
| RtpStream.VerdictExactly | core/src/rtc/rtp_stream.cpp:63-127 | the verdict by the true number: below 3000 ahead accepted, below 1500 behind late, everything else discarded unless it follows the last stray; and what each leaves |
| RtpStream.CyclesGrow | core/src/rtc/rtp_stream.cpp:73-81 | adding 65536 at a lower number keeps the two fields the unwrapped highest number, mod 2^32 |
| RtpStreamReceiver.CountsAcrossWraps | core/src/rtc/rtp_stream.cpp:28-136 | over every run without re-synchronisation the count is that of numbers that never wrap, across any number of wraps |
| RtpStreamReceiver.ExpectedExactly | core/include/rtc/rtp_stream_receiver.h:74-76 | expected packets is 1 + highest - first if and only if the first number is not 0 |
| RtpStreamReceiver.JudgedNewest | core/src/rtc/rtp_stream.cpp:63-127 | an accepted packet is the newest by the count exactly when it is by the comparator |
| RtpStreamReceiver.ResyncCouplesExactly | core/src/rtc/rtp_stream.cpp:84-104 | after a re-synchronisation stream and generator agree on the newest number if and only if it went forward |
| RtpStreamReceiver.BackwardResyncParts | core/src/rtc/rtp_stream.cpp:84-118 | three packets after which they disagree |
| RtpStreamReceiver.RtpStreamReceiver.ExpectedCounts | core/include/rtc/rtp_stream_receiver.h:74-76 | the getter on the fields is the count on the unwrapped state |
| RtpStreamReceiver.RtpStreamReceiver.ReceivePacket | core/src/rtc/rtp_stream_receiver.cpp:59-75 | only what the stream accepts reaches the generator, and the two stay on the same newest number |
| RtpStreamReceiver.RtpStreamReceiver.RequestsAreRight | core/src/rtc/rtp_stream_receiver.cpp:59-75 | the receiver's generator, too, makes its requests at the right times and at most ten for a packet |
| RateMeter.SumIsClose | core/src/rtc/data_calculator.cpp:16-119 | after any run whose clock does not step back, early calls included, asked one window or later: the sum lies between what was counted and not forgotten in the window and in the window shortened by one item |
| RateMeter.BoundOnEverything | core/src/rtc/data_calculator.cpp:16-119 | of everything counted: never too much; enough if nothing forgotten lies in the shortened window, as when no call came before one window; too little if more lies there than was counted in the window since |
| RateMeter.EarlyStartIsMissed | core/src/rtc/data_calculator.cpp:83-103 | a run of two counts that began early, asked after one window: one of them is not there |
| RateMeter.RunIsKept | core/src/rtc/data_calculator.cpp:16-63 | over any run whose clock does not step back: buckets stay in order, spaced by an item and within a window, and close to what was not forgotten for every later question |
| RateMeter.CountingStaysClose | core/src/rtc/data_calculator.cpp:27-57 | one more count keeps the sum close |
| RateMeter.FreshTwice | core/src/rtc/data_calculator.cpp:83-119 | forgetting early or late comes to the same |
| RateMeter.EarlyClockForgets | core/src/rtc/data_calculator.cpp:91-103 | below one window's length the cutoff wraps and everything goes |
| RateMeter.EarlyBoundExactly | core/src/rtc/data_calculator.cpp:83-103 | until then the sum is 0, and the error bound holds if and only if nothing was counted that it has to include |
| RateMeter.EarlySizeIsMissed | core/src/rtc/data_calculator.cpp:83-103 | one count, asked for a millisecond later, that is not there |
| RateMeter.RingSufficesExactly | core/src/rtc/data_calculator.cpp:29-49 | no run whose clock does not step back ever overwrites a live bucket if and only if the items together are as long as the window |
| RateCalculator.RingLengthExactly | core/include/rtc/data_calculator.h:27-36 | when the constructor's division makes them so, and how close to the window the items together come |
| RateCalculator.Rate | core/src/rtc/data_calculator.cpp:72-80 | the sum scaled to the window, to the nearest whole number |
| RateCalculator.RingDropsOldest | core/src/rtc/data_calculator.cpp:105-118 | zeroing the oldest slot and moving on is dropping the first bucket |
| RateCalculator.RateCalculator.constructor | core/include/rtc/data_calculator.h:27-36 | an empty meter whose ring suffices |
| RateCalculator.RateCalculator.Reset | core/include/rtc/data_calculator.h:45-57 | no buckets |
| RateCalculator.RateCalculator.RemoveOldData | core/src/rtc/data_calculator.cpp:83-119 | leaves exactly the buckets that start after the cutoff |
| RateCalculator.RateCalculator.Update | core/src/rtc/data_calculator.cpp:16-63 | counts into the ring as the meter does, and drops what comes from before the oldest bucket |
| RateCalculator.RateCalculator.GetRate | core/src/rtc/data_calculator.cpp:65-81 | the scaled sum of the live buckets; the cached rate is the recomputed one |
| SeqManager.RenumberingIsGapFree | core/src/rtc/seq_manager.cpp:80-147 | two inputs are as far apart after renumbering as there are undropped inputs from one to the other |
| SeqManager.NeighboursStayNeighbours | core/src/rtc/seq_manager.cpp:80-147 | order is kept, and neighbours among the undropped come out as neighbours |
| SeqManager.LaterDropsChangeNothing | core/src/rtc/seq_manager.cpp:64-77 | a drop changes no output of inputs below it |
| SeqManager.OutputsAreGapFree | core/src/rtc/seq_manager.cpp:64-147 | any two outputs of a run differ by the inputs between them that the whole run left undropped |
| SeqManager.LiveOrder | core/src/rtc/seq_manager.cpp:15-25 | live inputs compare, wrapped, as they do unwrapped, for every range |
| SeqManager.HigherIsStale | core/src/rtc/seq_manager.cpp:164-188 | a dropped input looks higher than the newest exactly when it is half a range behind |
| SeqManager.NearestNumber | core/src/rtc/seq_manager.cpp:15-25 | which number an input stands for, given the highest |
| SeqManager.LowerBoundCounts | core/src/rtc/seq_manager.cpp:106-122 | the search among the dropped inputs counts those below and finds the input if dropped |
| SeqManager.RightBase | core/src/rtc/seq_manager.cpp:114-126 | the base with the folded and the searched drops taken off is the right one |
| SeqManager.SeqManager.constructor | core/src/rtc/seq_manager.cpp:44-47 | nothing dropped, not started |
| SeqManager.SeqManager.Sync | core/src/rtc/seq_manager.cpp:50-61 | the input stands for the highest output so far |
| SeqManager.SeqManager.Drop | core/src/rtc/seq_manager.cpp:64-77 | a higher input joins the drops, any other is ignored |
| SeqManager.SeqManager.Input | core/src/rtc/seq_manager.cpp:80-147 | refused exactly when dropped; else the output is the input plus a constant minus the drops below it |
| SeqManager.SeqManager.OutputsOfTheRun | core/src/rtc/seq_manager.cpp:64-147 | the same of all outputs the manager has given since it was last synchronised |
| SeqManager.SeqManager.ClearDropped | core/src/rtc/seq_manager.cpp:164-188 | folds what is stale into the base; constant and drops stay, so no output changes |
| PacketQueue.EmplaceKeepsOrder | core/include/rtc/callback_queue_thread.h:79-81 | the map stays ordered and gains at most the one number |
| PacketQueue.ThreadRtpPacketQueue.Push | core/include/rtc/callback_queue_thread.h:23-85 | newest number, cycle and map after a push |
| PacketQueue.ThreadRtpPacketQueue.Pop | core/include/rtc/callback_queue_thread.h:88-112 | from any state, delivers exactly the packets under the next numbers, without gap or repeat; refuses only an empty map |
| PacketQueue.TrueExactly | core/include/rtc/callback_queue_thread.h:23-85 | over any run of true numbers, in any order and across wraps, every packet is stored under its true number if and only if each comes near the highest one before it: in its cycle at most 32767 below, or in the next at most 32768 above |
| PacketQueue.InOrderIsDelivered | core/include/rtc/callback_queue_thread.h:65-112 | packets in order, up to 2^32 of them and across every wrap, with pops anywhere: none is late and all are delivered in place |
| PacketQueue.RunIsInStep | core/include/rtc/callback_queue_thread.h:65-112 | over every interleaving of near packets in which nothing comes late, wraps included, the map holds exactly what was pushed and not yet delivered |
| PacketQueue.DeliveredInOrder | core/include/rtc/callback_queue_thread.h:65-112 | however pushes and pops interleave and whatever is pushed, what is delivered carries 0, 1, 2 and so on and is what was pushed under these numbers |
| PacketQueue.PermutationIsDelivered | core/include/rtc/callback_queue_thread.h:65-112 | true numbers 0 to n - 1 pushed in any order in which each comes near the highest, repeats before delivery included: all n packets are delivered, each in its place, however often the 16-bit number wraps |
| PacketQueue.LateBlocksExactly | core/include/rtc/callback_queue_thread.h:65-112 | a run, whatever is pushed, leaves the queue blocked if and only if some packet came when its number was already delivered |
| PacketQueue.LateBlocksForGood | core/include/rtc/callback_queue_thread.h:88-112 | from then on nothing is ever delivered |
| PacketQueue.DeliveredExactly | core/include/rtc/callback_queue_thread.h:65-112 | true numbers 0 to n - 1, near but repeated or not: everything is delivered in the end if and only if nothing came late |
| PacketQueue.RepeatAfterDeliveryIsLate | core/include/rtc/callback_queue_thread.h:65-112 | push, pop, push again is such a run; push, push again, pop is not |
| CopyOnWrite.SharedBuffer.EnsureCapacityWithHeadroom | core/include/utils/buffer.h:344-367 | the capacity grows by half at least, if at all |
| CopyOnWrite.SharedBuffer.SetSize | core/include/utils/buffer.h:310-315 | keeps what fits |
| CopyOnWrite.SharedBuffer.AppendData | core/include/utils/buffer.h:254-260 | appends |
| CopyOnWrite.SharedBuffer.SetData | core/include/utils/buffer.h:204-211 | replaces |
| CopyOnWrite.CopyOnWriteBuffer.SoleOwner | core/src/utils/copy_on_write_buffer.cc:99-107 | a reference count of one means that no other handle sees the storage |
| CopyOnWrite.CopyOnWriteBuffer.Copy | core/src/utils/copy_on_write_buffer.cc:18-20 | same bytes, and no other handle's bytes change |
| CopyOnWrite.CopyOnWriteBuffer.Move | core/src/utils/copy_on_write_buffer.cc:22-27 | the bytes move, the other is empty |
| CopyOnWrite.CopyOnWriteBuffer.Assign | core/include/utils/copy_on_write_buffer.h:128-135 | likewise for assignment, self-assignment included |
| CopyOnWrite.CopyOnWriteBuffer.AssignMoved | core/include/utils/copy_on_write_buffer.h:137-144 | likewise for move assignment; from itself it leaves the handle empty |
| CopyOnWrite.CopyOnWriteBuffer.Slice | core/include/utils/copy_on_write_buffer.h:249-254 | a handle on a part of the bytes, without a copy |
| CopyOnWrite.CopyOnWriteBuffer.WriteByte | core/include/utils/copy_on_write_buffer.h:100-106 | a write through the mutable pointer shows in this handle only |
| CopyOnWrite.CopyOnWriteBuffer.SetData | core/include/utils/copy_on_write_buffer.h:161-172 | this handle has the new bytes, all others keep theirs; exactly when the storage stays consistent |
| CopyOnWrite.CopyOnWriteBuffer.AppendData | core/include/utils/copy_on_write_buffer.h:193-207 | likewise for appending, also to a slice of a larger storage |
| CopyOnWrite.CopyOnWriteBuffer.SetSize | core/src/utils/copy_on_write_buffer.cc:50-68 | the common part of the bytes is kept, all other handles are untouched |
| CopyOnWrite.CopyOnWriteBuffer.EnsureCapacity | core/src/utils/copy_on_write_buffer.cc:70-83 | more room, same bytes |
| CopyOnWrite.CopyOnWriteBuffer.Clear | core/src/utils/copy_on_write_buffer.cc:85-97 | this handle is empty; exactly when the storage stays consistent |
| CopyOnWrite.CopyOnWriteBuffer.UnshareAndEnsureCapacity | core/src/utils/copy_on_write_buffer.cc:99-107 | sole ownership of the same bytes; copies only if shared or too small |
| CopyOnWrite.CopyOnWriteBuffer.Equals | core/src/utils/copy_on_write_buffer.cc:42-48 | equality of handles is equality of bytes |
| WebSocketFrames.MaskTwice | deps/websocket/src/ws_util.cpp:93-98 | masking is its own inverse |
| WebSocketFrames.MaskAt | deps/websocket/src/ws_util.cpp:93-98 | each bit of byte k changes if and only if it is set in byte k mod 4 of the key |
| WebSocketFrames.FrameOnTheWire | deps/websocket/src/ws_util.cpp:330-405 | the seven bytes of a masked text frame with one letter |
| WebSocketFrames.ParseIsStable | deps/websocket/src/ws_util.cpp:171-311 | more bytes never change a verdict that has been reached |
| WebSocketFrames.LengthOfEncoded | deps/websocket/src/ws_util.cpp:337-393 | the parser reads the length the framer wrote, in its three forms |
| WebSocketFrames.ParseOfEncoded | deps/websocket/src/ws_util.cpp:330-405 | a frame with a payload comes back as it was, whatever follows |
| WebSocketFrames.FrameRoundTripsExactly | deps/websocket/src/ws_util.cpp:171-405 | a frame comes back if and only if it has a payload or no key |
| WebSocketFrames.FragmentsMakeUpTheMessage | deps/websocket/src/ws_util.cpp:459-495 | payloads make up the message; opcode on the first only, FIN on the last only, 65520 bytes in all but the last |
| WebSocketFrames.ParseAllInPieces | deps/websocket/src/ws_util.cpp:171-311 | frames recognised do not depend on what arrives later |
| WebSocketFrames.ParseAllOfEncoded | deps/websocket/src/ws_util.cpp:171-311 | any frames with payloads, encoded in a row, come back |
| WebSocketFrames.FeedIsParseAll | deps/websocket/src/ws_util.cpp:171-311 | reading a chunk call by call is parsing held and new bytes as one stream |
| WebSocketFrames.ChunksDoNotMatter | deps/websocket/src/ws_util.cpp:171-311 | the cutting of the stream into chunks does not show |
| WebSocketFrames.MessageRoundTrip | deps/websocket/src/ws_util.cpp:171-495 | every message, opcode and cutting into chunks: the fragments come back and nothing is held |
| MemoryBuffer.MemBuf.constructor | deps/websocket/src/ws_membuf.cpp:20-25 | an empty buffer of the given capacity |
| MemoryBuffer.MemBuf.Clear | deps/websocket/src/ws_membuf.cpp:44-60 | empty, zeroed, and cut down to the size it may keep |
| MemoryBuffer.MemBuf.Reserve | deps/websocket/src/ws_membuf.cpp:67-88 | same bytes, room enough, less than twice what was needed, the rest zeroed; untouched if there was room |
| MemoryBuffer.MemBuf.AppendData | deps/websocket/src/ws_membuf.cpp:115-122 | appends |
| MemoryBuffer.MemBuf.Remove | deps/websocket/src/ws_membuf.cpp:166-178 | takes out a part, clipped to the end; exactly when the closing zero misses the buffer |
| WebSocketHandle.DoMask | deps/websocket/src/ws_util.cpp:93-98 | masks a buffer from a place to the end, in place, bit by bit |
| WebSocketHandle.MakeHeader | deps/websocket/src/ws_util.cpp:333-397 | the header bytes of a frame, length form and key included |
| WebSocketHandle.GenerateWebsocketFrameWithoutFragment | deps/websocket/src/ws_util.cpp:330-405 | appends the encoded frame |
| WebSocketHandle.LastRound | deps/websocket/src/ws_util.cpp:465-493 | the round the count calls last is the one with the last piece |
| WebSocketHandle.GenerateWebsocketFrame | deps/websocket/src/ws_util.cpp:459-495 | appends the encoded fragments of the message |
| WebSocketHandle.WebsocketHandle.ReadCharFromBufOrData | deps/websocket/src/ws_util.cpp:115-159 | reads on through held bytes and data as through one stream, and keeps what it took from the data |
| WebSocketHandle.WebsocketHandle.ReadStart | deps/websocket/src/ws_util.cpp:198-212 | FIN, opcode, mask bit and short length; the extension bits come out as 0 |
| WebSocketHandle.WebsocketHandle.ReadLength | deps/websocket/src/ws_util.cpp:233-278 | the longer lengths, and the failure on eight bytes |
| WebSocketHandle.WebsocketHandle.ReadBody | deps/websocket/src/ws_util.cpp:279-310 | key and payload, unmasked in place, or all bytes held for the next call |
| WebSocketHandle.WebsocketHandle.TryParseProtocol | deps/websocket/src/ws_util.cpp:171-311 | the verdict on held bytes and data, the count read, and what is held, as the parsing function says |
| WebSocketHandle.HeldIsPrompt | deps/websocket/src/ws_util.cpp:171-311 | bytes held for an unfinished frame never reach where its verdict falls |
| WebSocketHandle.ReceiveChunk | deps/websocket/include/ws_util.h:108-125 | calling again with what the read count leaves gives the frames of the stream |
| Sha1.AbsorbAppends | deps/websocket/src/ws_sha1.cpp:174-208 | hashing block by block does not depend on where the calls are cut |
| Sha1.RolMovesBits | deps/websocket/src/ws_sha1.cpp:15-21 | bit k goes to place k + n around the end of the word |
| Sha1.ConstantsAreRoots | deps/websocket/src/ws_sha1.cpp:23-26 | the round constants are the first 32 bits of four square roots |
| Sha1Example.DigestOfAbc | deps/cpp_websocket/utils/sha1.hpp:58-215 | the digest of "abc", through all eighty rounds |
| Sha1.ChByMux | deps/websocket/src/ws_sha1.cpp:27-30 | the selecting function as both implementations write it is Ch of section 4.1.1 |
| Sha1.MajByOr | deps/cpp_websocket/utils/sha1.hpp:48-52 | the majority function as both write it is Maj |
| Sha1Schedule.NextWord | deps/websocket/src/ws_sha1.cpp:32-35 | sixteen words overwritten in a ring hold the schedule of 80 |
| Sha1Schedule.ScheduleWord | deps/cpp_websocket/utils/sha1.hpp:43-52 | the macro yields the word of its round and keeps the ring so |
| Sha1Schedule.RoundsAgree | deps/cpp_websocket/utils/sha1.hpp:47-52 | a round of either implementation is a round of section 6.1.2 |
| Sha1Schedule.RolesMoveOn | deps/websocket/src/ws_sha1.cpp:37-41 | updating two variables and renaming five is shifting the registers |
| Sha1Schedule.Rotate80 | deps/websocket/src/ws_sha1.cpp:58-164 | eighty rounds with the roles rotated end as the 80-word form does |
| Sha1Digest.Sha1Context.Transform | deps/websocket/src/ws_sha1.cpp:58-171 | one block is one compression |
| Sha1Digest.Sha1Context.Write | deps/websocket/src/ws_sha1.cpp:174-208 | the octets written are absorbed or in the buffer, whatever the cutting; after a digest it starts anew |
| Sha1Digest.Sha1Context.Final | deps/websocket/src/ws_sha1.cpp:215-286 | the digest of the message, as words and as octets; finished twice, that of the empty message |
| Sha1Digest.CountBits | deps/websocket/src/ws_sha1.cpp:222-235 | two 32-bit words with a carry hold eight times the length |
| Sha1Digest.Sealed | deps/websocket/src/ws_sha1.cpp:237-260 | padding in one block or two is the padding of section 5.1.1 |
| Sha1Digest.LengthsAreBigEndian | deps/websocket/src/ws_sha1.cpp:226-245 | both ways of writing the length give its octets, the highest first |
| Sha1Digest.OctetsAreTheWord | deps/websocket/src/ws_sha1.cpp:262-282 | a word of the digest comes out highest octet first |
| Sha1Digest.DigestByContext | deps/websocket/src/ws_sha1.cpp:174-286 | every message of less than 2^38 octets in any pieces has its FIPS 180-4 digest |
| Sha1Digest.Sha1Stream.AddByteDontCountBits | deps/cpp_websocket/utils/sha1.hpp:10-17 | one octet into the buffer, a block hashed when it is full |
| Sha1Digest.Sha1Stream.Add | deps/cpp_websocket/utils/sha1.hpp:165-194 | octets, whole blocks and octets again: the same as one by one |
| Sha1Digest.Sha1Stream.Finalize | deps/cpp_websocket/utils/sha1.hpp:201-208 | the padding goes through as octets and leaves the digest |
| Sha1Digest.DigestByStream | deps/cpp_websocket/utils/sha1.hpp:165-208 | every message in any pieces has its FIPS 180-4 digest |
| PointerHeap.TimersAreOrdered | deps/libuv/src/timer.c:36-53 | the timers' comparison is a strict weak order and total on different timers |
| PointerHeap.SwappedLinksSpell | deps/libuv/src/heap-inl.h:72-104 | the links after a swap spell the level order with the two nodes exchanged |
| PointerHeap.RelinkedIsLinked | deps/libuv/src/heap-inl.h:72-104 | that is again a complete tree with consistent links |
| PointerHeap.Heap.SwapLinks | deps/libuv/src/heap-inl.h:72-104 | what the swap does to every link of the nodes around it |
| PointerHeap.Heap.SwapNodes | deps/libuv/src/heap-inl.h:72-104 | every node of the tree has the links of its new place |
| PointerHeap.Heap.PathTo | deps/libuv/src/heap-inl.h:119-124 | the bits of a position below its highest, as a path |
| PointerHeap.Heap.Walk | deps/libuv/src/heap-inl.h:119-136 | the path leads to the position of the level order it is taken from |
| PointerHeap.Heap.SiftUp | deps/libuv/src/heap-inl.h:143-147 | restores the order upwards, keeping the nodes |
| PointerHeap.Heap.Insert | deps/libuv/src/heap-inl.h:106-148 | a complete linked tree in heap order with exactly one node more |
| PointerHeap.Heap.UnlinkLast | deps/libuv/src/heap-inl.h:163-192 | the last node of the bottom row is taken off |
| PointerHeap.Heap.ReplaceLinks | deps/libuv/src/heap-inl.h:195-214 | what the replacement does to every link around it |
| PointerHeap.Heap.SiftDown | deps/libuv/src/heap-inl.h:216-229 | restores the order downwards, keeping the nodes |
| PointerHeap.Heap.Remove | deps/libuv/src/heap-inl.h:150-237 | of any member: a complete linked tree in heap order without exactly that node |
| PointerHeap.Heap.Dequeue | deps/libuv/src/heap-inl.h:239-241 | removes a least node |
| PointerHeap.TakeDue | deps/libuv/src/timer.c:163-180 | one turn of the timers' loop: takes out the due timer with the least timeout and, among equal ones, the least start number; none if none is due |
| PointerHeap.RootIsLeast | deps/libuv/src/heap-inl.h:67-69 | no node is less than the root |
| PointerHeap.LiftKeepsOrder | deps/libuv/src/heap-inl.h:143-147 | a swap with a larger parent leaves only the new place in doubt |
| PointerHeap.SinkKeepsOrder | deps/libuv/src/heap-inl.h:216-229 | a swap with the least child likewise |
| PointerHeap.RemovedNodes | deps/libuv/src/heap-inl.h:150-214 | moving the last node into the gap removes one node and no other |
| ThreadPoolTheorems.CountersKept | deps/libuv/src/threadpool.c:57-160 | idle and slow counters are the workers' states, and slow work never exceeds (nthreads + 1) / 2 |
| ThreadPoolTheorems.MessageKept | deps/libuv/src/threadpool.c:57-160 | waiting slow work has its message in the queue, and there is never a second one |
| ThreadPoolTheorems.WakeUpsKept | deps/libuv/src/threadpool.c:57-160 | every step keeps: while a worker sleeps, at least as many workers are on their way to the queue, signaled or at the top of their loop, as it has things to take; a worker that runs a callback does not count |
| ThreadPoolTheorems.PostBrings | deps/libuv/src/threadpool.c:142-160 | a post brings one more worker exactly when one sleeps, and at most one thing more to take |
| ThreadPoolTheorems.NeverStalls | deps/libuv/src/threadpool.c:57-160 | with runnable work and a worker asleep, some worker is on its way to the queue |
| ThreadPoolTheorems.SleepsExactly | deps/libuv/src/threadpool.c:57-105 | a worker goes to sleep if and only if there is no task in the queue and no message, or one while half of the workers, rounded up, are on slow work |
| ThreadPoolTheorems.MessageFollowsWork | deps/libuv/src/threadpool.c:85-112 | starting slow work leaves the message in the queue if and only if more slow work waits |
| ThreadPoolItems.StepPlaces | deps/libuv/src/threadpool.c:57-345 | no step loses or doubles an item; only submitting adds one |
| ThreadPoolItems.ConservedKept | deps/libuv/src/threadpool.c:57-345 | every submitted item has exactly one place |
| ThreadPoolItems.CancelAgainPlaces | deps/libuv/src/threadpool.c:281-305 | a second cancel moves the item and keeps it in one place |
| ThreadPoolItems.StagedKept | deps/libuv/src/threadpool.c:57-345 | an item's status and runs fit its place |
| ThreadPoolItems.RunKeepsSound | deps/libuv/src/threadpool.c:57-345 | all of these over any run |
| ThreadPoolItems.InitialIsSound | deps/libuv/src/threadpool.c:193-241 | and from the start |
| ThreadPoolItems.NothingIsStuck | deps/libuv/src/threadpool.c:57-160 | in a sound pool every worker waiting, running or returning can take its next step |
| ThreadPoolItems.OneItemIsRun | deps/libuv/src/threadpool.c:57-345 | one worker and one item of slow work, from sleep to the done callback |
| ThreadPoolItems.EveryInterleaving | deps/libuv/src/threadpool.c:57-345 | for any number of workers and loops: at most half of the workers, rounded up, run slow work, and each done callback comes once, after at most one run, cancelled exactly when there was none |

## Left out

- RetransmissionMap.InsertRefinesMap: stated for up to 32768 slots, the range in which `Get` is a look-up (GetFindsEverythingExactly).
- RtpStreamSender.RtpStreamSender.FillRetransmissionContainer: a round-trip time from 65536 ms on is excluded, as the source's conversion of a float to `uint16_t` is undefined there.
- RtpStreamSender.RtpStreamSender.ReceiveNack: likewise; the container, static in the source, is the sender's own here.
- Packets are values: `Item::Reset`, the sharing of packet objects with other holders, and the writing of header fields into packets that are then not resent are not modelled; the size check of `StorePacket` is left out.
- NackGenerator.NackGenerator.AddPacketsToNackList: gaps of more than 32767 numbers are excluded, as for ReceivePacket below; the clock is read once for a packet; the source reads it again for each number it lists and for the batch.
- NackGenerator.NackGenerator.RequestsAreRight: of runs in which the clock never reads 0, which the code takes for "never asked for".
- NackGenerator.NackGenerator.ReceivePacket: jumps ahead by more than 22767 (MAX_JUMP), where the keys held no longer lie in one half window and the ordered containers promise nothing, are excluded; the stream in front of it lets none through but by a re-synchronisation (JudgedNewest). Recovered packets are never announced by the caller and the timer is never started, so both are left out.
- RtpStreamReceiver.RtpStreamReceiver.ReceivePacket: follows the generator through re-synchronisations forward and near; ResyncCouplesExactly says what happens otherwise. The transmission counter and the reports are left out.
- RateCalculator.RateCalculator.constructor: asks for a ring that suffices (RingLengthExactly); what a shorter ring loses by overwriting is not modelled beyond RingSufficesExactly. The scale is a real number: the rounding of single-precision arithmetic and windows of length 0 are left out.
- RateCalculator.RateCalculator.Update: the clock does not step back, except to before the oldest bucket, which the code discards.
- RateCalculator.RateCalculator.GetRate: asked at no earlier time than the latest call's.
- SeqManager.SeqManager.Drop: dropping before the first input, and dropping while a live dropped input is not lower than the new one, are excluded, as the search in the dropped set is then undefined.
- PacketQueue.DeliveredExactly: of packets that come near the highest number (TrueExactly says what happens otherwise); ResetPopSeq and the wrap of the 32-bit counter are left out.
- PacketQueue.ThreadRtpPacketQueue.Pop: Push and Pop are atomic, so the waits on the two condition variables are left out.
- CopyOnWrite.CopyOnWriteBuffer.Slice: of a part of the bytes; the source does not check its bounds.
- CopyOnWrite.CopyOnWriteBuffer.WriteByte: a pointer from MutableData kept across later calls, swap, and writes through const_cast are left out.
- WebSocketHandle.WebsocketHandle.TryParseProtocol: buffers from 2^31 bytes on are excluded, as sizes are `unsigned int` there.
- MemoryBuffer.MemBuf.Reserve: likewise.
- WebSocketHandle.GenerateWebsocketFrame: likewise, and so for GenerateWebsocketFrameWithoutFragment and ReceiveChunk.
- MemoryBuffer.MemBuf.AppendData: likewise; truncation, insertion and formatted output of the buffer are left out.
- Sha1Digest.Sha1Context.Final: of less than 2^38 octets.
- Sha1Digest.DigestByContext: the context counts blocks in 32 bits, hence the bound of 2^38 octets. The unrolled eighty rounds are sixteen groups of five; the path for big-endian hosts, hexadecimal and base64 output are left out.
- PointerHeap.Heap.Insert: the number of nodes does not overflow; the comparison is passed per call, as in the source.
- ThreadPool: a step is what happens between taking and releasing the mutexes, so the circular lists are sequences of items; the two mutexes a cancel takes are one step each. Cancelling after the done callback, clean-up, joining the threads and fork handling are left out.
- Sockets, TLS, HTTP, UDP, the event loop, JSON and string splitting: input and output around libraries, without state to reason about.
- RTP header fields, RTCP report fields, message tables, NTP conversion, fraction lost, round-trip estimation: single expressions, some in floating point.
- The static ping, pong and close frames and the handshake strings: constants.
