# VortexEngine: a verified model of the log pipeline

VortexEngine takes log lines from TCP connections to a consumer thread:

    TCP reads -> mirrored byte ring -> frame loop -> line parser
              -> shared-memory slabs -> single-producer queue -> consumer thread

Each stage is index arithmetic on unsigned words plus a promise about every run.
The project models the stages in the form the engine has them (classes over
arrays with wrapping indices, a step system for the two threads of a queue) and
proves what they promise.

| file | part of the engine |
|---|---|
| `Words.dfy` | 64-bit wrap-around, bitwise and, powers of two |
| `Ring.dfy`, `LogQueue.dfy` | the queue run by one thread at a time, all four overflow profiles |
| `QueueSteps.dfy` | the queue and both threads, one step per atomic load or store; the step invariant |
| `QueueRuns.dfy` | order, loss, slot conflicts, wakeups, and when a full ring is written |
| `QueueBlocking.dfy` | the spin loop of the blocking profiles; progress of a running queue; how its consumer goes to sleep |
| `QueueShutdown.dfy`, `QueueJoin.dfy` | what follows `set_finished`: the stops that no continuation ends, and those that every one does |
| `Telemetry.dfy` | the telemetry counters of all queues |
| `Framing.dfy`, `MagicRing.dfy`, `Session.dfy` | the wire format, the mirrored ring, the read loop of a connection |
| `SlabPool.dfy` | the slab allocator and its rotation |
| `LineParser.dfy` | the scalar parser against a grammar; the separator masks of the AVX2 parser |
| `Ingest.dfy`, `Pipeline.dfy` | shared-memory records and queue entries; all stages together |
| `StreamBuf.dfy` | the vendored `basic_streambuf` |

How to read the concurrent model. A run is any list of actions. A load of the
other side's index names the store it reads, which may be any store not older
than the last one that side has seen; an action that is impossible in a state
leaves it unchanged. Every theorem about runs is therefore about all
interleavings and all such stale reads. `overrun` marks the runs in which an
entry was published into a full ring.

What the code does where its documentation says otherwise. The model follows the
code.

- Block (`README.md` of the engine: "backpressure"): the spin loops test
  `head == tail`. On a full ring they are left at once and the write makes the
  ring read as empty; on a ring that has become empty they are never left.  Which
  entries can do either is exact (`QueueRuns.OverrunIsExact`,
  `QueueBlocking.SpinIsExact`), and so is which states are never left
  (`QueueBlocking.StalledIsExact`).
- `set_finished` does not notify: a consumer on its way to sleep, or asleep, is not
  woken, so the join in `stop_threads` may not return.  Three kinds of stop are told
  apart, each exactly: those after which the thread can no longer end
  (`QueueShutdown.JoinIsExact`), those after which it may come to that
  (`QueueJoin.SureJoinIsExact`), and all others, after which it ends within 13
  moves (`QueueJoin.SureJoinIsBounded`).  In the second kind the newest loads can be
  enough: a consumer about to load `head` when the stop comes goes to sleep on it.
- The loop after the main one of a consumer is there to pop what a stop has left, but
  `pop` refuses once the queue is stopped: it pops nothing, and the entries held are
  never read (`QueueShutdown.DrainPopsNothing`).
- Binary payloads of size - 1030 to size - 32 bytes pass the length check of the
  frame loop, but the read loop disconnects if a read leaves size - 1023 bytes or
  more of such a frame without the rest (`Sessions.StreamLimitIsExact`).
- A last run of text frames of fewer than four bytes in all stays unread
  (`Framing.RoundTrip`, `Framing.AllDelivered`).
- `& (max_slabs - 1)` rotates over P slabs, P being the largest power of two that
  divides `max_slabs`, and nothing is placed beyond them
  (`SlabPools.OnlyTheCycleIsUsed`); the default of ten slabs uses two.
- The third separator of the AVX2 parser equals the second unless the line begins
  with a space.  A valid line on the fast path therefore comes to a call of
  from_chars with a reversed range, which is undefined
  (`FastParser.CurrentParserIsExact`); which lines of a stream those are follows from
  its frames (`Pipeline.CallsAreDefined`).  The results about runs of parser calls
  are about runs without such a call.
- Offsets in the shared memory are cut to 32 bits; none is when the P slabs in use
  take at most 4 GiB, and else some is (`SlabPools.OffsetLimitIsExact`).
- `message_offset` is documented as an offset inside the slab; the code stores the
  offset in the channel, and the header's `relative_offset` holds the same value.
- Profile 3 is documented, but the configuration reader accepts 0 to 2 only.

## Model

| member | source | states |
|---|---|---|
| Words.MaskIsMod | engine/Core/src/LogQueue.cpp:42 | masking with a power of two less one is the remainder, for indices of any size |
| Words.MaskedSub | engine/Core/src/LogQueue.cpp:80 | an unsigned difference that wraps at 2^64, masked, is the true difference modulo the capacity |
| Words.BitCeil | engine/Core/src/LogQueue.cpp:28 | the capacity C for r raw slots is a power of two with r <= C < 2r |
| Words.Pow2IsExact | engine/Core/src/LogQueue.cpp:28 | the powers of two are exactly the doublings of 1 |
| Words.MaskLowPart | engine/Network/include/LogServer.h:114 | masking with `max_slabs - 1` sends the index P to 0 and keeps those below it, P being the largest power of two dividing `max_slabs` |
| Words.LowPow2IsAll | engine/Network/include/LogServer.h:114 | P is `max_slabs` itself exactly when that is a power of two |
| Words.LowPow2Odd | engine/Network/include/LogServer.h:114 | P divides `max_slabs` and no larger power of two does: the quotient is odd |
| Ring.FullTest | engine/Core/src/LogQueue.cpp:41-44 | the full test fires exactly at C - 1 held entries, the empty test exactly at none |
| Ring.CountIs | engine/Core/src/LogQueue.cpp:80 | the occupied-slot expression is the distance from tail to head round the ring |
| Ring.HeldPush | engine/Core/src/LogQueue.cpp:73-75 | below C - 1 entries a slot write and head advance append the entry to what the ring holds |
| Ring.HeldOverrun | engine/Core/src/LogQueue.cpp:73-75 | at C - 1 entries the same write leaves a ring that holds nothing |
| Ring.HeldPop | engine/Core/src/LogQueue.cpp:111-113 | the slot at the tail is the oldest entry and advancing the tail removes just that one |
| LogQueues.LogQueue.constructor | engine/Core/src/LogQueue.cpp:11-34 | storage exists exactly if the shared memory is mapped and the RAM holds 58 bytes or more; the capacity is a power of two from the number of 29-byte entries up to below twice that; the queue is empty and running |
| LogQueues.LogQueue.Push | engine/Core/src/LogQueue.cpp:36-91 | for every profile: appends below C - 1 entries; on a full ring either nothing changes or the queue reads as empty; refused once stopped; counted exactly when written |
| LogEntries.FullRingByProfile | engine/Core/src/LogQueue.cpp:44-69 | what each of the four profiles makes of a full ring: Block writes every entry, DropAll none, the two others the critical ones, and a write leaves a ring that reads as empty |
| LogQueues.LogQueue.Pop | engine/Core/src/LogQueue.cpp:98-130 | succeeds exactly on a running, non-empty queue, returns the oldest entry and keeps the others in order |
| QueueSafety.StepKeepsGood | engine/Core/src/LogQueue.cpp:36-130 | every atomic step of push, pop and the consumer loop that is not an overrun keeps the invariant tying indices, slots, local variables and stale views to the history of accepted and popped entries |
| QueueRuns.HeldIsPending | engine/Core/src/LogQueue.cpp:80 | head, tail and slots alone denote the accepted entries not yet popped, and the masked difference counts them |
| QueueRuns.PoppedIsPrefix | engine/Core/src/LogQueue.cpp:36-113 | in every run without overrun the accepted entries are the popped ones followed by the held ones, and at most C - 1 are held |
| QueueRuns.OrderIsKept | engine/Core/src/LogQueue.cpp:36-76 | in every run, overrun or not, the accepted entries are pushed entries, each at most once and in the order of the calls |
| QueueRuns.SubsequenceIsEmbedded | engine/Core/src/LogQueue.cpp:36-76 | which means that each is found among the entries pushed, at growing positions |
| QueueRuns.LoadsNeverGoBack | engine/Core/src/LogQueue.cpp:44-104 | in every run a later load of the other side's index reads the same store as an earlier one or a younger one |
| QueueRuns.NoSlotConflict | engine/Core/src/LogQueue.cpp:73-111 | in every run without overrun the producer never writes the slot that the consumer is copying out |
| QueueRuns.NoLostWakeup | engine/ThreadManager/src/ThreadManager.cpp:109-118 | in a running queue without overrun a consumer asleep beside unread entries means that the producer is between its head store and its notify |
| QueueRuns.HeadReturnsOnlyByPop | engine/ThreadManager/src/ThreadManager.cpp:109-118 | while a running queue without overrun is waited on, the waiter has popped everything before the head it read, and head shows that value exactly while nothing has been accepted since |
| QueueRuns.NoOverrunWhenTame | engine/Core/src/LogQueue.cpp:44-69 | no run writes a full ring if none of its pushes may: never under DropAll, nor under the critical profiles without critical entries |
| QueueRuns.NoOverrunByProfile | engine/Core/src/LogQueue.cpp:44-69 | no run overruns under DropAll, nor under DropNonCritical and PassCriticalDropElse if no critical entry is pushed |
| QueueRuns.OverrunIsReachable | engine/Core/src/LogQueue.cpp:44-69 | any entry the profile writes when full is, in some run that pushes nothing else, written into a full ring, which then reads as empty with C accepted entries lost to the reader |
| QueueRuns.OverrunIsExact | engine/Core/src/LogQueue.cpp:44-69 | a run that pushes only a given entry can overrun the ring exactly under Block, or if the entry is critical under DropNonCritical or PassCriticalDropElse |
| QueueRuns.RefusedExactlyWhenFull | engine/Core/src/LogQueue.cpp:44-69 | in a running queue a push that may not write a full ring is given up by one step only, the full test, and exactly when the tail store it loads leaves C - 1 accepted entries unpopped |
| QueueRuns.PushAloneIsSequential | engine/Core/src/LogQueue.cpp:36-91 | the atomic steps of an undisturbed push add up to the sequential push, and overrun exactly on a full ring under a profile that writes it |
| QueueBlocking.PopAloneIsSequential | engine/Core/src/LogQueue.cpp:98-130 | the atomic steps of an undisturbed pop remove exactly the oldest held entry |
| QueueBlocking.RunCanPopAll | engine/ThreadManager/src/ThreadManager.cpp:83-121 | from every state of a running queue without overrun, steps of the calls under way can pop all that has been accepted, from whatever point of the consumer loop |
| QueueBlocking.SleepsAfter500 | engine/ThreadManager/src/ThreadManager.cpp:92-118 | beside an empty queue the consumer makes 500 fruitless pops in all, then one more, loads the head, pops once again in vain and sleeps on it |
| QueueBlocking.SleepsOnlyAfter500 | engine/ThreadManager/src/ThreadManager.cpp:97-117 | in every run a consumer on its way to sleep or asleep has counted 500 fruitless pops since it last woke, and never more |
| QueueBlocking.StalledForever | engine/Core/src/LogQueue.cpp:48-65 | a producer spinning beside an empty queue stays so in every continuation of the run |
| QueueBlocking.StalledIsExact | engine/Core/src/LogQueue.cpp:48-65 | a spinning producer of a run without overrun spins in every continuation exactly if the queue is empty and it has seen the last tail store |
| QueueBlocking.NoSpinByProfile | engine/Core/src/LogQueue.cpp:44-69 | no run enters the spin loop under DropAll or PassCriticalDropElse, nor under DropNonCritical if no critical entry is pushed |
| QueueBlocking.SpinIsExact | engine/Core/src/LogQueue.cpp:48-65 | a run that pushes only a given entry can end in the endless spin exactly under Block, or under DropNonCritical if the entry is critical, for every capacity |
| QueueShutdown.ShutdownBound | engine/Core/src/LogQueue.cpp:36-113 | after is_running is false no push begins, at most one more push and one more pop take effect, and with none in flight slots, head and tail never change again |
| QueueShutdown.DrainPopsNothing | engine/ThreadManager/src/ThreadManager.cpp:123-127 | in no run does the loop after the main one pop anything, and the thread ends by the refusal of the first pop there and in no other way |
| QueueShutdown.DoomedForever | engine/ThreadManager/src/ThreadManager.cpp:109-118 | a consumer of a stopped queue that is bound to wait for the present head, asleep or still on its way, with no push past its last look at is_running, stays so in every continuation |
| QueueShutdown.CanFinish | engine/ThreadManager/src/ThreadManager.cpp:89-131 | from every other state of a stopped queue, a push in flight included, some continuation ends the consumer thread |
| QueueShutdown.JoinIsExact | engine/ThreadManager/src/ThreadManager.cpp:83-154 | for every run, overrun or not, no continuation of a stop after it ends the consumer thread exactly if the state it stops in is of that kind |
| QueueJoin.SureJoinIsExact | engine/ThreadManager/src/ThreadManager.cpp:83-154 | for every run before the stop, some continuation leaves a consumer thread that nothing ends exactly if the stop comes in a state at risk: about to load head for the wait, bound to wait for what head will be once the push in flight is done, or with the spins used up at the stale is_running or before a tail test that may read the ring as empty |
| QueueJoin.SureJoinIsBounded | engine/ThreadManager/src/ThreadManager.cpp:83-154 | after any other stop every continuation has at most 13 moves of the consumer and of the push in flight, and one is possible until the thread has ended |
| QueueShutdown.StopMayNeverJoin | engine/ThreadManager/src/ThreadManager.cpp:83-154 | for every capacity such a stop is reached without any push: the idle consumer falls asleep first |
| EngineTelemetry.TelemetryConservation | engine/Telemetry/src/Telemetry.cpp:17-25 | over all queues and interleavings, overrun or not, each counter is exact modulo 2^64: pushed is the number of entries accepted less the pushes between head store and count, eliminated the number popped less the pops between tail store and count; each queue's occupied-slot expression is their difference modulo the capacity, and the difference itself without overrun |
| MagicRings.OffsetAdvance | engine/Network/src/LogServer.cpp:389-428 | advancing a wrapping 64-bit position by n moves its masked offset by n round the mirror |
| MagicRings.MagicRingBuffer.constructor | engine/Network/src/LogServer.cpp:367-376 | every positive multiple of 64 KiB is taken; a ring whose size is a power of two starts empty and meets the invariant the other operations keep |
| MagicRings.MagicRingBuffer.GetWriteSpace | engine/Network/src/LogServer.cpp:394-397 | the space is the size less the unread bytes, across index wrap-around |
| MagicRings.MagicRingBuffer.GetBytesAvailable | engine/Network/src/LogServer.cpp:399-402 | the number of unread bytes, across index wrap-around |
| MagicRings.MagicRingBuffer.Arrive | engine/Network/src/LogServer.cpp:113 | bytes read at the write pointer fill the double window in order and disturb no unread byte |
| MagicRings.MagicRingBuffer.CommitWrite | engine/Network/src/LogServer.cpp:404-407 | the arrived bytes join the end of the unread ones |
| MagicRings.MagicRingBuffer.Consume | engine/Network/src/LogServer.cpp:409-412 | exactly the oldest n bytes go |
| MagicRings.MagicRingBuffer.GetView | engine/Network/src/LogServer.cpp:414-417 | the contiguous view is the oldest bytes in order and stays inside the double window |
| MagicRings.MagicRingBuffer.Peek | engine/Network/src/LogServer.cpp:425-428 | the four unread bytes at an offset, as a little-endian word, also across the mirror |
| Framing.SignatureIsMagic | engine/Network/src/LogServer.cpp:130-137 | the byte-swapped constant matches exactly the bytes DE AD BE EF on the wire |
| Framing.LengthIsBigEndian | engine/Network/src/LogServer.cpp:141 | the length is the four bytes after the magic, most significant first, for every four bytes |
| Framing.LengthField | engine/Network/src/LogServer.cpp:141 | and so the length written by the encoding is the length read, for every 32-bit length |
| Framing.BinaryVerdict | engine/Network/src/LogServer.cpp:137-157 | what every buffer that begins with DE AD BE EF gives, in numbers: more bytes needed, a disconnect, or which payload and how many bytes consumed |
| Framing.TextVerdict | engine/Network/src/LogServer.cpp:158-181 | what every other buffer gives: the text before the first byte 10, more bytes needed, or a disconnect |
| Framing.TooLongIsExact | engine/Network/src/LogServer.cpp:143-170 | the loop disconnects exactly for a length of 0 or above the limit, and for more bytes than the limit without a newline |
| Framing.DeliveredIsEncoded | engine/Network/src/LogServer.cpp:133-182 | each turn of the loop that goes on consumes at least one byte and at most all, and they are the encoding of a well-formed frame |
| Framing.EncodedIsDelivered | engine/Network/src/LogServer.cpp:133-182 | an encoded frame in front of any bytes, four in all at least, is the frame delivered |
| Framing.DrainConserves | engine/Network/src/LogServer.cpp:133-182 | the delivered frames re-encoded and the unread bytes are together exactly the bytes received, for every input |
| Framing.RoundTrip | engine/Network/src/LogServer.cpp:128-183 | encoding a list of frames and draining it gives the list back, but for a last run of frames shorter than four bytes in all |
| Framing.AllDelivered | engine/Network/src/LogServer.cpp:133 | the whole list comes back exactly when it is empty or its last frame takes at least four bytes |
| Framing.DrainResumes | engine/Network/src/LogServer.cpp:133-182 | draining a first part and then its rest with what follows is draining the whole |
| Sessions.NetworkSession.constructor | engine/Network/src/LogServer.cpp:88-93 | ring size and length limit from the configured log size; the session starts empty |
| Sessions.NetworkSession.Inspect | engine/Network/src/LogServer.cpp:133-181 | one turn of the frame loop, read through the ring, reaches the verdict of the wire format on the unread bytes |
| Sessions.NetworkSession.ProcessStash | engine/Network/src/LogServer.cpp:128-183 | the loop ends, having delivered, consumed and refused what one pass over the unread bytes does |
| Sessions.NetworkSession.PayloadPlace | engine/Network/src/LogServer.cpp:151-177 | the payload lies 8 bytes into a binary frame and at the start of a text frame, and where in its page that is follows from the bytes of the frames delivered before, across the wrap of the ring and of the 64-bit position |
| Sessions.NetworkSession.ReadHeader | engine/Network/src/LogServer.cpp:95-113 | a read starts with at least 1024 bytes of space, or else the session disconnects |
| Sessions.NetworkSession.ReadCompleted | engine/Network/src/LogServer.cpp:113-120 | a completed read of any size within the space has the effect of the session step that the chunk theorems are about |
| Sessions.EncodedIsBounded | engine/Network/src/LogServer.cpp:95-111 | well-formed frames of at most size - 1023 bytes make a stream the read loop can take |
| Sessions.ChunkIndependence | engine/Network/src/LogServer.cpp:95-183 | every way of cutting a stream that no disconnect interrupts gives the parser calls and unread bytes of one pass over the whole |
| Sessions.BoundedStaysOpen | engine/Network/src/LogServer.cpp:95-111 | no way of cutting such a bounded stream makes a disconnect fire |
| Sessions.RunConserves | engine/Network/src/LogServer.cpp:95-183 | in every run, disconnected or not, the delivered frames re-encoded and the unread bytes are together exactly the bytes received |
| Sessions.FramesArrive | engine/Network/src/LogServer.cpp:95-183 | frames sent and cut anywhere arrive in order, but for a last run of fewer than four bytes |
| Sessions.StreamLimitIsExact | engine/Network/src/LogServer.cpp:95-111 | a stream of well-formed frames survives every cut that the reads allow exactly if each takes at most size - 1023 bytes |
| SlabPools.RolloverIndex | engine/Network/include/LogServer.h:112-116 | a rollover steps the slab index modulo P |
| SlabPools.GrantBounds | engine/Network/include/LogServer.h:107-125 | a granted region lies in one slab, the one its rollover count selects, inside the mapping, and its 32-bit offset is the place modulo 2^32 |
| SlabPools.RunIsPlaced | engine/Network/include/LogServer.h:107-121 | over every run each region lies directly behind the one before it exactly if it fits into the rest of that slab, else at the base of the next slab, one rollover on; the first against the cursor of the pool; refused are exactly the requests larger than a slab |
| SlabPools.RunRetains | engine/Network/include/LogServer.h:107-125 | over every run a region keeps its bytes until P further rollovers |
| SlabPools.RunIsApart | engine/Network/include/LogServer.h:107-125 | over every run two regions fewer than P rollovers apart do not overlap |
| SlabPools.ReusedAfterCycle | engine/Network/include/LogServer.h:112-118 | the P-th further rollover starts at the base of the region's own slab, so the bound is exact |
| SlabPools.RotationLength | engine/Network/include/LogServer.h:112-116 | after k rollovers the slab index is k mod P, and P is the number of slabs exactly when that is a power of two |
| SlabPools.EverySlabOfTheCycleIsReached | engine/Network/include/LogServer.h:112-118 | k + 1 whole-slab requests end in slab k mod P |
| SlabPools.OnlyTheCycleIsUsed | engine/Network/include/LogServer.h:107-125 | no region of any run, for any number of slabs, lies beyond the first P slabs |
| SlabPools.OffsetLimitIsExact | engine/Network/include/LogServer.h:118-119 | over all runs of requests no offset is truncated exactly if P slabs take at most 4 GiB |
| SlabPools.DefaultConfigurationUsesTwoSlabs | engine/VortexEngine/MainConfig.h:11 | with the default ten slabs no region of any run lies beyond the second |
| SlabPools.SlabPool.constructor | engine/Network/include/LogServer.h:79 | slab size in bytes from MiB with 64-bit wrap, for every configuration; an empty pool that meets the allocator's invariant if there is a slab and the size of all of them does not wrap |
| SlabPools.SlabPool.GetNextSlab | engine/Network/include/LogServer.h:107-125 | refused exactly when header and message exceed a slab, and then nothing changes; otherwise the region at the cursor, or at the base of the next slab of the rotation exactly if it does not fit, and its place modulo 2^32 |
| LineParser.TimestampWindow | engine/Network/include/LogServer.h:29-42 | with unsigned wrap the window is now - 5 to now + 5, and empty within five of either end of the clock |
| LineParser.GrammarIsExact | engine/Network/src/LogServer.cpp:185-213 | the scalar parser accepts exactly `digits SP digits SP digits SP message` in range, and returns those numbers and that message |
| LineParser.GrammarInNumbers | engine/Network/src/LogServer.cpp:185-213 | the same in numbers: digits 48 to 57 with their positional value, spaces 32, a 64-bit time within 5 of the clock, a level from 0 to 4, an id from 1 to 2^32 - 1 |
| LineParser.TimeRejects | engine/Network/src/LogServer.cpp:193-194 | which lines are rejected for a missing time and which for one outside the window |
| LineParser.LevelRejects | engine/Network/src/LogServer.cpp:201-202 | with the time in order, which are rejected for a missing level and which for one above 4 |
| LineParser.IdRejects | engine/Network/src/LogServer.cpp:209-210 | with time and level in order, which are rejected for a missing id and which for the id 0 |
| LineParser.PrintedIsParsed | engine/Network/src/LogServer.cpp:185-213 | printing a valid line and parsing it gives the four fields back |
| FastParser.ThirdSeparator | engine/Network/src/LogServer.cpp:264-266 | for every mask of three bits or more the third mask is the true one if bit 0 is set and the second one if it is not |
| FastParser.ThirdPositionIsExact | engine/Network/src/LogServer.cpp:264-266 | the third position is that of the third set bit exactly when bit 0 is set |
| FastParser.FirstTwoSpaces | engine/Network/src/LogServer.cpp:256-265 | the first two positions are those of the first two spaces of the line |
| FastParser.FastPathGuard | engine/Network/src/LogServer.cpp:251-262 | the fast path is for payloads of 64 bytes or more that begin at most 4032 bytes into their page and have three spaces in their first 32 bytes |
| FastParser.FastTimeRefusals | engine/Network/src/LogServer.cpp:268-272 | which lines the fast path refuses for what precedes the first space, by reason |
| FastParser.FastLevelRefusals | engine/Network/src/LogServer.cpp:274-278 | which it refuses for what lies between the first two spaces, by reason, and that exactly the others come to the reversed range, with which time and level |
| FastParser.FastPathStopsAtId | engine/Network/src/LogServer.cpp:264-287 | up to the id, on every line the fast path either disconnects or asks for it in a reversed range |
| FastParser.FastAgreesOnTimeAndLevel | engine/Network/src/LogServer.cpp:264-281 | on every line the scalar parser accepts it finds the same time and level, and then the reversed range |
| FastParser.CurrentParserIsExact | engine/Network/include/LogServer.h:194-202 | the parser chosen by the processor is the scalar one off the fast path; on it, every line the scalar parser accepts comes to the reversed range, and only lines it rejects are refused |
| Ingest.HeaderRoundTrip | shared/shared_memory_protocol.h:11-19 | the packed 29-byte header reads back field by field |
| Ingest.HeaderLayout | shared/shared_memory_protocol.h:11-19 | the place, width and byte order of each of the six fields |
| Ingest.EntryLevel | engine/Network/src/LogServer.cpp:238 | the entry is Debug, Info, Warning, Error or Critical exactly if the level is 0, 1, 2, 3 or 4 |
| Ingest.EntriesStayReadable | engine/Network/src/LogServer.cpp:215-243 | over runs of defined parser calls, until P further rollovers an entry whose place fits 32 bits, as all do if P slabs take less than 4 GiB, names exactly the header and message of its own line, the message at relative offset + 29 |
| Ingest.WriteLine | engine/Network/src/LogServer.cpp:218-233 | the slab request and the two writes have the effect of one store of header and message at the granted place |
| Ingest.ParseAndPush | engine/Network/src/LogServer.cpp:185-308 | with either parser, which problem is reported is exact; a line that is refused changes nothing, one that is taken is written and then its entry is pushed under the queue's profile, where a full ring drops it under the two critical profiles exactly if its level is below 4; of the undefined case nothing is promised |
| Pipeline.AllFramesArrive | engine/Network/src/LogServer.cpp:95-183 | printed lines in frames of either kind, cut anywhere, are all handed over with nothing left unread |
| Pipeline.DropAllKeepsOldest | engine/Core/src/LogQueue.cpp:55-56 | pushes to a DropAll queue with no pops leave its oldest C - 1 entries in order |
| Pipeline.CallsAreDefined | engine/Network/src/LogServer.cpp:246-262 | for printed lines the frames alone decide: all parser calls are defined exactly if there is no AVX2 or no payload comes to lie where it takes the fast path |
| Pipeline.EndToEnd | engine/Network/src/LogServer.cpp:95-308 | sent lines, off the fast path where there is AVX2, are posted in order, stay readable until P further rollovers, and the queue holds the oldest that fit |
| Pipeline.ConsumerSeesPostedLines | engine/Core/src/LogQueue.cpp:36-113 | in every state of every interleaving of defined parser calls with queue steps, without overrun (always under DropAll), what has been popped are entries of posted lines, in order and none twice, and the memory of that state holds the line of every posting until P rollovers after its own |
| StreamBufs.BasicStreambuf.constructor | engine/VortexEngine/asio/basic_streambuf.hpp:131-141 | an empty input sequence under the given maximum, with room for 128 bytes or that maximum |
| StreamBufs.BasicStreambuf.Reserve | engine/VortexEngine/asio/basic_streambuf.hpp:308-346 | throws exactly when size and n exceed max_size; otherwise keeps the input sequence and leaves room for n: the room there was, what moving frees, or n; the state after a throw is stated |
| StreamBufs.ContentsSurviveThrow | engine/VortexEngine/asio/basic_streambuf.hpp:321-340 | the input sequence survives a throw for all bytes exactly when nothing was consumed or at least as much as is left |
| StreamBufs.BasicStreambuf.Prepare | engine/VortexEngine/asio/basic_streambuf.hpp:214-219 | n bytes inside the put area, with the throw of Reserve and the state it leaves |
| StreamBufs.BasicStreambuf.Commit | engine/VortexEngine/asio/basic_streambuf.hpp:233-238 | the first n written bytes, or all there is room for, join the input sequence |
| StreamBufs.BasicStreambuf.Consume | engine/VortexEngine/asio/basic_streambuf.hpp:247-254 | the first n bytes, or all there are, leave the input sequence |
| StreamBufs.BasicStreambuf.Underflow | engine/VortexEngine/asio/basic_streambuf.hpp:263-274 | the oldest byte without consuming it, or end of file exactly on an empty input sequence |
| StreamBufs.BasicStreambuf.Overflow | engine/VortexEngine/asio/basic_streambuf.hpp:283-306 | appends a byte inside the put area, and throws, with nothing lost, exactly at max_size; end of file changes nothing |

## Left out

- QueueRuns.PoppedIsPrefix: says nothing about a run after an overrun, where the code keeps no order; which runs have one is stated by QueueRuns.NoOverrunWhenTame and QueueRuns.OverrunIsExact.
- LogQueues.LogQueue.Push: the watermark flag and percentage, which have no effect beyond a commented-out print.
- LogQueues.LogQueue.Pop: the low-watermark exchange, for the same reason.
- EngineTelemetry.TelemetryConservation: printing and velocities are not modelled.
- SlabPools.SlabPool.GetNextSlab: assumes a slab, `slab_size * max_slabs` below 2^64 and a mapping that succeeded; the control block in front of the data region is not modelled.
- MagicRings.MagicRingBuffer.constructor: the exception for sizes it refuses, and the file mapping that is cut off from 4 GiB on. The other operations are modelled for powers of two, the sizes a session asks for; for other sizes masking is no remainder.
- Sessions.NetworkSession.constructor: assumes a log size of 1 to 4095 MiB; outside it the ring constructor throws inside a noexcept function or the file mapping is truncated.
- StreamBufs.BasicStreambuf.Commit: sizes stay below 2^31, so the casts to int are exact.
- FastParser.FastPathStopsAtId: stops at the reversed range, since what from_chars does with it is undefined; a line may well be completed there.
- Ingest.ParseAndPush: at the reversed range of the fast path the call reports `Undefined`, of which the contract promises nothing; the theorems about runs of calls (Ingest.EntriesStayReadable, Pipeline.ConsumerSeesPostedLines, Pipeline.EndToEnd) are about runs of defined calls.
- std::from_chars and memchr are given by what their documentation says; the clock and the processor's features are parameters of each parser call, and its page offset is one that Pipeline.CallsFor computes.
- QueueJoin.SureJoinIsBounded: that a possible move is made some time is left to the scheduler, whose fairness is not modelled.
- Disconnects ordered by the parser close the socket later and do not stop the frame loop; they are results of the parser call here and do not enter the session state.
- Each queue has one producer because session k and queue k mod 2 share one I/O thread. This takes two queues; with the default `thread_num` of 1 the second connection indexes the list of queues at 1 (`engine/Network/src/LogServer.cpp:75`), beyond its end, which the model does not cover. Sockets, acceptor, strands and the configuration reader are not modelled.
- Memory ordering below "a load returns some store not older than the last one seen"; the wait on head compares with the newest store, and so do push and pop with is_running; only the relaxed load of func_is_running may be stale.
- The virtual-memory calls behind the mirror are assumed to alias byte i with byte i + size; moving, resetting and destroying rings and pools are not modelled.
- The rest of the vendored asio library.
