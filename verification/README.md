# Verified model of the trading pipeline

The repository is a lock-free trading pipeline written in C++: market data, strategy and gateway threads
joined by single-producer single-consumer rings, a small FIX 4.2 codec, a mock exchange, and the
containers around them. This project models those parts in Dafny and proves what they promise over every
input, every interleaving and every run. `dafny verify dfyconfig.toml` checks all of it.

How the parts fit together:

- **Rings.** `Ring` is a step machine in which every load, slot access and store is a step, an acquire
  load may return any published value not older than the last one seen, and vector views stand for
  happens-before. It exists in 64-bit and in unbounded arithmetic; `RingWrap` shows that the first refines the second.
  `RingTheorems` has the results, `Spsc` the class and its reading as a bounded queue.
- **FIX.** `Text`, `TagValue` and `Fix` say what is written and read, `Draining` and `Framing` how a byte
  stream becomes messages, `Codec` holds the builder, view and framer as they are updated in place.
- **Orders and the exchange.** `Messages` and `Exchange` are the message contents; `Transducer` and
  `Handlers` the exchange's connection handler and the encoder; `Conversation` the gateway and the
  exchange talking over TCP, with `Measurements` for what is recorded,
  `Session` plugging in FIX and `GatewayThread` the gateway's own state.
- **Pipeline.** `Pipeline` composes the three threads, two rings and the stop flag; `System` joins it with
  the conversation, `Progress` says what can still happen and how threads end, and `Engine` instantiates
  the whole with the program's strategy and codec.
- **Containers.** `FlatMap` and `Fibonacci`; `Buckets`, `OrderStatistics`, `Histogram` and
  `ConcurrentHistogram`; `Pool`; `Bump`. `Bits` is the machine arithmetic they share.

## What the code does differently from what one would expect

- **Framer.** With a negative BodyLength `next` may yield for ever without consuming, and what it yields
  may depend on later bytes (`Framing.NegativeLengthNeverEnds`). `Framing.StableIffSound` gives the exact
  condition, which every non-negative length meets.
- **Scratch buffer.** From ids of ten million on, a NewOrderSingle can take 113 bytes and overrun the
  112-byte scratch (`Messages.EightDigitIdsOverrun`). `Messages.NosLength` and
  `Messages.GeneratedOrderFits` say exactly when it fits.
- **Histogram.** The octave is capped but the sub-bucket is not, so values from 2^40 on fall outside the
  array (`Buckets.InRangeBelowLimit`, both directions). A rank of zero reports zero whatever was recorded
  (`Histogram.RankZeroReportsZero`), and with a single record, exactly then, all three ranks are zero
  (`Histogram.RankZeroForSingleSample`, `Histogram.SingleSampleReportsZero`).
- **Snapshots.** Relaxed loads may be stale, so a snapshot can miss what was counted before it began
  (`ConcurrentHistogram.StaleScanMissesRecord`); `ConcurrentHistogram.NeverBelowStartIffNothingOlder` says
  exactly when it cannot.
- **Exchange.** Client texts are echoed unchecked into a 480-byte body: a symbol of more than 402
  characters overruns it (`Exchange.LongSymbolOverruns`). `Exchange.ReplyFitsExactly` gives the exact
  condition, which every order of the engine meets.
- **Flat map.** The comment on the hash speaks of the top bits; the code shifts by one and keeps the low
  bits of the product (`Fibonacci.HashIsHalf`).
- **Bump allocator.** A request close to 2^64 bytes wraps around and is granted over memory in use
  (`Bump.WrappingRequestReusesMemory`), and the empty block at the top of the address space gets address
  zero; `Bump.AllocIsExact` gives the exact condition.

## Model

| member | source | states |
|---|---|---|
| `Bits.StaticAssertMeansPow2` | roles/trading-app-deploy/files/cpp/include/spsc.hpp:35 | the compile-time test `(c & (c - 1)) == 0` accepts exactly the powers of two, for every c >= 1 |
| `Bits.MaskedIndex` | roles/trading-app-deploy/files/cpp/include/spsc.hpp:37 | masking a wrapped 64-bit counter gives the unbounded counter modulo the capacity |
| `Ring.StepKeepsInv` | roles/trading-app-deploy/files/cpp/include/spsc.hpp:51-72 | the inductive invariant (caches behind indices, slot contents, both program counters, the vector views of the memory model) is kept by every load, slot access and store of either side |
| `RingWrap.StepCommutes` | roles/trading-app-deploy/files/cpp/include/spsc.hpp:52-71 | every step of the 64-bit ring, with equality tests and masked slots, is the wrapped image of the same step on unbounded counters |
| `RingWrap.StepRefines` | roles/trading-app-deploy/files/cpp/include/spsc.hpp:52-71 | one step of the 64-bit ring from a wrapped state is one step of the unbounded ring, with the same event, and keeps the invariant |
| `RingWrap.RunRefines` | roles/trading-app-deploy/files/cpp/include/spsc.hpp:52-71 | every run of the 64-bit ring, of any length past wrap-around and for every power-of-two capacity, is the wrapped image of a run of the unbounded ring with the same events |
| `RingWrap.InvAlong` | roles/trading-app-deploy/files/cpp/include/spsc.hpp:51-72 | the invariant holds at every point of every run of the unbounded ring |
| `Ring.WriteNeverRaces` | roles/trading-app-deploy/files/cpp/include/spsc.hpp:57 | when the producer is about to write a slot, every earlier read of that slot happens before the write |
| `Ring.ReadNeverRaces` | roles/trading-app-deploy/files/cpp/include/spsc.hpp:69 | when the consumer is about to read a slot, the last write of that slot happens before the read |
| `RingTheorems.FifoAlways` | roles/trading-app-deploy/files/cpp/include/spsc.hpp:51-72 | in every interleaving, stale acquire loads included: popped is a prefix of pushed, at most `capacity` items are in flight, and their slots hold exactly them |
| `RingTheorems.NoDataRace` | roles/trading-app-deploy/files/cpp/include/spsc.hpp:53-69 | every slot access of every run is ordered by happens-before after the conflicting one, and producer and consumer never stand at the same slot |
| `RingTheorems.RefusedPushSawFullRing` | roles/trading-app-deploy/files/cpp/include/spsc.hpp:53-56 | a push is refused exactly when the head value it just loaded leaves no room; with the newest value loaded, exactly when the ring is full |
| `RingTheorems.RefusedPopSawEmptyRing` | roles/trading-app-deploy/files/cpp/include/spsc.hpp:65-68 | a pop is refused exactly when the tail value it just loaded shows nothing; with the newest value loaded, exactly when the ring is empty |
| `RingTheorems.CallsAreWaitFree` | roles/trading-app-deploy/files/cpp/include/spsc.hpp:51-72 | a call in progress always has a next step, each own step brings it closer to its end, and the other side cannot set it back |
| `Spsc.PushAlone` | roles/trading-app-deploy/files/cpp/include/spsc.hpp:51-60 | a whole `try_push` is a walk of the step machine and leaves the members as the machine's state says |
| `Spsc.PopAlone` | roles/trading-app-deploy/files/cpp/include/spsc.hpp:63-72 | the same for a whole `try_pop` |
| `Spsc.RingIsBoundedQueue` | roles/trading-app-deploy/files/cpp/include/spsc.hpp:51-72 | any sequence of calls is answered exactly as by a queue bounded by the capacity, from any reachable state |
| `Spsc.SpscRing.constructor` | roles/trading-app-deploy/files/cpp/include/spsc.hpp:79-87 | a new ring stands for the empty queue |
| `Spsc.SpscRing.TryPush` | roles/trading-app-deploy/files/cpp/include/spsc.hpp:51-60 | appends to the queue exactly when it holds fewer than `capacity` items, otherwise refuses and leaves it unchanged |
| `Spsc.SpscRing.TryPop` | roles/trading-app-deploy/files/cpp/include/spsc.hpp:63-72 | takes the front of the queue, or returns nothing exactly when it is empty |
| `Spsc.SpscRing.PushMembers` | roles/trading-app-deploy/files/cpp/include/spsc.hpp:51-60 | the data members and the answer after a push, in 64-bit arithmetic, as the function that `PushAlone` ties to the machine |
| `Spsc.SpscRing.PopMembers` | roles/trading-app-deploy/files/cpp/include/spsc.hpp:63-72 | the data members and the answer after a pop, likewise tied by `PopAlone` |
| `Text.FindChar` | roles/trading-app-deploy/files/cpp/include/fix.hpp:93-98 | the first occurrence from a position on, or the end |
| `Text.FindText` | roles/trading-app-deploy/files/cpp/include/fix.hpp:126-128 | the first occurrence of a pattern from a position on, or the end |
| `Text.NumberRoundTrip` | roles/trading-app-deploy/files/cpp/include/fix.hpp:42-46 | parsing a printed number gives it back, for every number the target type holds |
| `Text.DigitsParse` | roles/trading-app-deploy/files/cpp/include/fix.hpp:96 | digits with or without a minus parse to their number when the type holds it, else to nothing; what follows them is ignored |
| `Text.DigitCount` | roles/trading-app-deploy/files/cpp/include/fix.hpp:44 | a number has at most d digits exactly when it is below 10^d |
| `TagValue.ScanFindsFirst` | roles/trading-app-deploy/files/cpp/include/fix.hpp:90-103 | scanning printed tag=value pairs finds the value of the first pair with the tag, or nothing |
| `Fix.MessageIsFields` | roles/trading-app-deploy/files/cpp/include/fix.hpp:50-65 | a finished message is exactly the printed list BeginString, BodyLength, added fields, CheckSum |
| `Fix.BuilderViewRoundTrip` | roles/trading-app-deploy/files/cpp/include/fix.hpp:39-103 | for every list of fields with SOH-free values and int tags, `get` on the finished message returns the first value written under the tag, or empty |
| `Fix.IntegerRoundTrip` | roles/trading-app-deploy/files/cpp/include/fix.hpp:42-110 | `get_int` recovers every i64 added first under its tag |
| `Fix.EnvelopeIsRight` | roles/trading-app-deploy/files/cpp/include/fix.hpp:50-65 | read back from the message: BodyLength counts exactly the body bytes, the body stands seven bytes before the end, CheckSum is the sum of the preceding bytes modulo 256, however they are added up |
| `Fix.ByteSumIsTheSum` | roles/trading-app-deploy/files/cpp/include/fix.hpp:29-30 | there is only one way to add up bytes so that nothing gives zero and each byte counts once |
| `Fix.ByteSumAppend` | roles/trading-app-deploy/files/cpp/include/fix.hpp:29-30 | the sum of a concatenation is the sum of the sums |
| `Fix.ShortestHeartbeat` | roles/trading-app-deploy/files/cpp/include/fix.hpp:50-77 | one whole message byte for byte: BeginString, length 5, 35=0, checksum 161 |
| `Fix.GarbledIsRead` | roles/trading-app-deploy/files/cpp/include/fix.hpp:90-103 | trailing text without `=` does not disturb the fields before it |
| `Fix.CutOffIsRead` | roles/trading-app-deploy/files/cpp/include/fix.hpp:97-98 | a last field without its closing SOH is read to the end of the message |
| `Fix.GetLacksSoh` | roles/trading-app-deploy/files/cpp/include/fix.hpp:97-99 | no value read contains SOH, whatever the message |
| `Fix.NumberIsRead` | roles/trading-app-deploy/files/cpp/include/fix.hpp:104-110 | the leading number of a value when it is an i64, else the default; trailing text is ignored |
| `Fix.DefaultIsRead` | roles/trading-app-deploy/files/cpp/include/fix.hpp:104-110 | a missing or non-numeric value gives the default |
| `Fix.FrameLength` | roles/trading-app-deploy/files/cpp/include/fix.hpp:50-65 | the total length as a function of the body length |
| `Codec.Checksum` | roles/trading-app-deploy/files/cpp/include/fix.hpp:28-32 | the 32-bit accumulation yields the byte sum modulo 256 |
| `Codec.WriteField` | roles/trading-app-deploy/files/cpp/include/fix.hpp:68-77 | writes `tag=value<SOH>` at a place, returns its length, touches nothing else |
| `Codec.Builder.constructor` | roles/trading-app-deploy/files/cpp/include/fix.hpp:79-80 | a new builder has an empty body |
| `Codec.Builder.Reset` | roles/trading-app-deploy/files/cpp/include/fix.hpp:37 | the body becomes empty |
| `Codec.Builder.AddText` | roles/trading-app-deploy/files/cpp/include/fix.hpp:39-41 | the body grows by the printed field |
| `Codec.Builder.AddNumber` | roles/trading-app-deploy/files/cpp/include/fix.hpp:42-46 | the body grows by the printed field with the decimal value |
| `Codec.Builder.Finalize` | roles/trading-app-deploy/files/cpp/include/fix.hpp:50-65 | the output holds the framed body, at most 503 bytes, and its length is returned |
| `Codec.View.Get` | roles/trading-app-deploy/files/cpp/include/fix.hpp:90-103 | the loop computes the scan of the specification on every byte string, malformed ones included |
| `Codec.View.GetInt` | roles/trading-app-deploy/files/cpp/include/fix.hpp:104-110 | the value as a number, or the default when it is missing or not an i64 |
| `Codec.Framer.Append` | roles/trading-app-deploy/files/cpp/include/fix.hpp:123 | the chunk is appended to the buffer |
| `Codec.Framer.Next` | roles/trading-app-deploy/files/cpp/include/fix.hpp:125-141 | the message cut off and the buffer left behind, or no message and no change; `msg_end` wraps for a negative length as in the program |
| `Framing.YieldStays` | roles/trading-app-deploy/files/cpp/include/fix.hpp:125-141 | a message yielded now is still yielded, and from a steady header unchanged, when more bytes are appended |
| `Framing.StableIffSound` | roles/trading-app-deploy/files/cpp/include/fix.hpp:125-141 | a yield consumes input and is the same whatever bytes follow exactly when its header is sound (its end not before its start nor at the buffer's front) |
| `Framing.NonNegativeLengthIsSound` | roles/trading-app-deploy/files/cpp/include/fix.hpp:133-136 | every non-negative BodyLength gives a sound header |
| `Framing.NegativeLengthNeverEnds` | roles/trading-app-deploy/files/cpp/include/fix.hpp:133-139 | a concrete buffer with a negative BodyLength from which `next` yields for ever without consuming |
| `Framing.HeaderIs` | roles/trading-app-deploy/files/cpp/include/fix.hpp:126-135 | the header read is the first `8=`, the first SOH `9=` from there on, the next SOH, and the number in between or zero |
| `Framing.CompleteIffReached` | roles/trading-app-deploy/files/cpp/include/fix.hpp:135-140 | for a non-negative length a message is yielded exactly when the buffer reaches seven bytes beyond the body; it starts at the `8=`, and what precedes is dropped |
| `Framing.NegativeEndYieldsNothing` | roles/trading-app-deploy/files/cpp/include/fix.hpp:136-137 | an end that would lie before the buffer wraps around and yields nothing |
| `Framing.BackwardEndTakesAll` | roles/trading-app-deploy/files/cpp/include/fix.hpp:136-139 | an end inside the buffer but before the start hands out everything from the start on and keeps what follows the end |
| `Framing.FrameStartsWithHead` | roles/trading-app-deploy/files/cpp/include/fix.hpp:54-56 | every message starts with 8=FIX.4.2, then 9= and the body length |
| `Framing.FramerIgnoresChunking` | roles/trading-app-deploy/files/cpp/include/fix.hpp:121-141 | for every stream whose headers are sound, draining after each chunk of any chunking yields what draining once yields |
| `Framing.WellFramedIffSound` | roles/trading-app-deploy/files/cpp/include/fix.hpp:125-141 | a whole stream is cut stably, message after message, exactly when every header the loop meets is sound |
| `Framing.NextOfFrame` | roles/trading-app-deploy/files/cpp/include/fix.hpp:125-141 | a buffer starting with a Builder message yields exactly that message and leaves the rest |
| `Framing.NextOfPartialFrame` | roles/trading-app-deploy/files/cpp/include/fix.hpp:125-141 | a proper prefix of a Builder message yields nothing |
| `Framing.StreamIsSplit` | roles/trading-app-deploy/files/cpp/include/fix.hpp:117-141 | a concatenation of Builder messages, cut off at any byte and chopped up in any way, is split into exactly those messages |
| `Draining.DrainThenMore` | roles/trading-app-deploy/files/cpp/include/fix.hpp:117-141 | draining, receiving and draining again is draining once |
| `Draining.ChunkingIsIrrelevant` | roles/trading-app-deploy/files/cpp/include/fix.hpp:117-141 | the receive loop over any chunks equals one drain of their concatenation |
| `Draining.MessagesAreSplit` | roles/trading-app-deploy/files/cpp/include/fix.hpp:117-141 | messages that are cut off whatever follows are recovered from their concatenation, in order |
| `Messages.MidSteps` | roles/trading-app-deploy/files/cpp/src/engine_main.cpp:144-145 | the mid starts at 9950, rises by five from tick to tick and falls back by ninety-five every twenty |
| `Messages.HalveTowardZero` | roles/trading-app-deploy/files/cpp/include/strategy.hpp:25 | the mid of any bid and ask is their half, rounded toward zero |
| `Messages.RuleOnGeneratedTicks` | roles/trading-app-deploy/files/cpp/include/strategy.hpp:23-28 | every generated tick is quoted at its mid, strictly inside the spread; consecutive ids alternate sides from a purchase on; time, symbol and fixed size are carried along |
| `Messages.NosReadsBack` | roles/trading-app-deploy/files/cpp/src/engine_main.cpp:118-131 | every field of a NewOrderSingle comes back as written, for any SOH-free texts |
| `Messages.OrderRoundTrip` | roles/trading-app-deploy/files/cpp/src/engine_main.cpp:118-131 | whoever parses a NewOrderSingle gets the order's id, symbol, side, quantity and price, for every u64 id and i64 number |
| `Messages.NosOrder` | roles/trading-app-deploy/files/cpp/src/engine_main.cpp:119-129 | the ten fields go out in this order, the type first |
| `Messages.FirstValueAbsent` | roles/trading-app-deploy/files/cpp/include/fix.hpp:90-103 | a tag that was not added has no value |
| `Messages.NosLength` | roles/trading-app-deploy/files/cpp/src/engine_main.cpp:118-131 | the exact message length from the digit counts and the symbol, and exactly when it fits the 112-byte scratch and the 120 bytes of the order it is copied to |
| `Messages.GeneratedOrderFits` | roles/trading-app-deploy/files/cpp/src/engine_main.cpp:144-146 | orders from generated ticks fit the scratch exactly while id (twice), symbol and price take at most 29 characters; below ten million ids at most 111 bytes |
| `Messages.EightDigitIdsOverrun` | roles/trading-app-deploy/files/cpp/src/engine_main.cpp:166-177 | eight-digit ids with the longest symbol and a five-digit price take 113 bytes, one more than the scratch holds |
| `Messages.OverrunsExactly` | roles/trading-app-deploy/files/cpp/src/engine_main.cpp:166-177 | below a hundred million ids an order overruns the scratch exactly with eight digits, BANKNIFTY and a five-digit price |
| `Handlers.EncodeOrder` | roles/trading-app-deploy/files/cpp/src/engine_main.cpp:118-131 | the ten `add` calls and `finalize` leave exactly the NewOrderSingle of the order in the buffer |
| `Exchange.OrderIsEchoed` | roles/trading-app-deploy/files/cpp/src/exchange_main.cpp:104-109 | the exchange recognises every NewOrderSingle of the engine and reads its five text fields unchanged |
| `Exchange.OrderIsFilled` | roles/trading-app-deploy/files/cpp/src/exchange_main.cpp:104-121 | it answers each with an ExecutionReport whose ClOrdID parses to the order's id |
| `Exchange.FillCarriesOrder` | roles/trading-app-deploy/files/cpp/src/exchange_main.cpp:110-121 | whoever parses the fill gets sender, target, the order's symbol, side, price and full quantity, status filled, and order and execution ids one above the message's sequence number |
| `Exchange.AnyOrderIsFilled` | roles/trading-app-deploy/files/cpp/src/exchange_main.cpp:104-121 | any message of type D, well formed or not, is answered by one fill with the session fields, echoing id and terms, with the defaults for missing ones |
| `Exchange.ReplyOrder` | roles/trading-app-deploy/files/cpp/src/exchange_main.cpp:61-66 | the fields of every reply go out in a fixed order, the type first |
| `Exchange.OtherReplies` | roles/trading-app-deploy/files/cpp/src/exchange_main.cpp:98-124 | a logon is acknowledged with its two settings, a test request answered by a heartbeat, both with sender, target, number and time stamp; other messages ignored without using a sequence number |
| `Exchange.FillFits` | roles/trading-app-deploy/files/cpp/src/exchange_main.cpp:67-68 | that reply fits the builder's 480 and the send buffer's 512 bytes for every i64 price and quantity and every sequence number |
| `Exchange.FillLength` | roles/trading-app-deploy/files/cpp/src/exchange_main.cpp:110-121 | the exact body length of a fill: 78 bytes and the variable texts, id and quantity counted twice |
| `Exchange.ReplyFitsExactly` | roles/trading-app-deploy/files/cpp/src/exchange_main.cpp:56-124 | a reply fits the 480-byte body exactly when it is not a fill or its variable texts take at most 402 characters; logon and heartbeat replies always fit |
| `Exchange.LongSymbolOverruns` | roles/trading-app-deploy/files/cpp/src/exchange_main.cpp:106-116 | every client order with a symbol of more than 402 characters makes the reply overrun the body |
| `Exchange.OrdersReplyFits` | roles/trading-app-deploy/files/cpp/src/exchange_main.cpp:104-121 | every order of the engine meets the condition |
| `Handlers.Connection.constructor` | roles/trading-app-deploy/files/cpp/src/exchange_main.cpp:84-86 | a new connection has an empty buffer and sequence number 1 |
| `Handlers.Connection.Answer` | roles/trading-app-deploy/files/cpp/src/exchange_main.cpp:56-124 | bytes and next sequence number for a message of any type, logon, order, test request and others |
| `Handlers.Connection.Handle` | roles/trading-app-deploy/files/cpp/src/exchange_main.cpp:94-125 | one round of the dispatch loop: the framer's next message answered, or nothing changed |
| `Handlers.Connection.Receive` | roles/trading-app-deploy/files/cpp/src/exchange_main.cpp:90-125 | a received chunk is appended and every complete message answered, as the transducer says, for every stream with sound headers and replies within the exact length |
| `Handlers.ReadEcho` | roles/trading-app-deploy/files/cpp/src/exchange_main.cpp:105-120 | the five fields taken over, with the defaults for missing ones |
| `Transducer.ServeThenMore` | roles/trading-app-deploy/files/cpp/src/exchange_main.cpp:89-126 | serving, receiving and serving again is serving once |
| `Transducer.ServingIgnoresChunking` | roles/trading-app-deploy/files/cpp/src/exchange_main.cpp:89-126 | what a server sends and the state it ends in do not depend on the chunking of its input |
| `Handlers.ExchangeIgnoresChunking` | roles/trading-app-deploy/files/cpp/src/exchange_main.cpp:89-126 | so for the exchange, on every client stream whose headers are sound |
| `Transducer.AnswersEach` | roles/trading-app-deploy/files/cpp/src/exchange_main.cpp:89-126 | on a stream of whole messages the server sends the k-th answer for the k-th message, numbered and stamped in order, and nothing else |
| `Handlers.OrdersAreAnswered` | roles/trading-app-deploy/files/cpp/src/exchange_main.cpp:89-126 | on the encodings of any orders the exchange sends exactly their fills, in order, with consecutive numbers |
| `Conversation.StepKeepsInv` | roles/trading-app-deploy/files/cpp/src/engine_main.cpp:197-240 | sends, deliveries of any size and message handling keep the account of what is under way, the pending table and the samples |
| `Conversation.SlotOwner` | roles/trading-app-deploy/files/cpp/src/engine_main.cpp:206-226 | the order whose timestamp a lookup finds is the latest one sharing the slot; it is the order itself exactly within 4096 |
| `Conversation.FillsEchoOrders` | roles/trading-app-deploy/files/cpp/src/engine_main.cpp:217-231 | in every run with any chunking both ways, the ids read from reports are a prefix, in order, of the ids sent |
| `Conversation.FillsAreTimed` | roles/trading-app-deploy/files/cpp/src/engine_main.cpp:197-240 | each report is timed against the latest order in its slot, its own within the window; the table holds the last 4096 orders; the sample counts are max(0, n - 500) up to 2^64 events; fills never exceed orders |
| `Conversation.SampledIsPastWarmup` | roles/trading-app-deploy/files/cpp/src/engine_main.cpp:204-229 | the number of samples is max(0, n - 500) exactly until the 64-bit counter has wrapped |
| `Measurements.SamplesAreMeasured` | roles/trading-app-deploy/files/cpp/src/engine_main.cpp:203-229 | at every point of every run the samples are exactly the measured times of sends and reports that found the counter past the warm-up, in order |
| `Measurements.SamplesAfterWarmup` | roles/trading-app-deploy/files/cpp/src/engine_main.cpp:203-229 | up to 2^64 events, those are all measured times but the first 500 |
| `Measurements.NumbersCountUp` | roles/trading-app-deploy/files/cpp/src/exchange_main.cpp:57-64 | the exchange numbers its answers consecutively from where it began |
| `Measurements.AnswersInOrder` | roles/trading-app-deploy/files/cpp/src/exchange_main.cpp:94-124 | the k-th message the exchange handles is the k-th order, answered under the k-th number behind everything sent before |
| `Conversation.NothingLostAtRest` | roles/trading-app-deploy/files/cpp/src/engine_main.cpp:197-240 | whenever no bytes are under way or buffered, the ids read back are exactly the ids sent |
| `Conversation.NeverStuck` | roles/trading-app-deploy/files/cpp/src/engine_main.cpp:217-231 | while an order is unanswered, some side can receive or handle something |
| `Conversation.Settle` | roles/trading-app-deploy/files/cpp/src/engine_main.cpp:217-231 | from every state that satisfies the invariant, receiving and handling alone lead to a state where every order has its report |
| `Session.FixIsSound` | roles/trading-app-deploy/files/cpp/src/exchange_main.cpp:89-126 | the FIX codec, framer and exchange handler provide what the conversation needs |
| `Session.EveryRun` | roles/trading-app-deploy/files/cpp/src/exchange_main.cpp:89-126 | the conversation results for the program's own codec and exchange, both directions composed: prefix always, equality at rest, timing and sample counts |
| `Session.EveryOrderCanBeFilled` | roles/trading-app-deploy/files/cpp/src/exchange_main.cpp:89-126 | at every point of every run of the conversation, receiving and handling alone can bring every order its report |
| `Session.FillsInOrder` | roles/trading-app-deploy/files/cpp/src/exchange_main.cpp:94-124 | in every run the exchange answers the k-th order it handles with that order's fill under the k-th number |
| `Session.OnlyReportsCount` | roles/trading-app-deploy/files/cpp/src/engine_main.cpp:223-224 | messages of any type other than 8 are ignored; an ExecutionReport without an id counts for id 0 |
| `Session.ReportsCountForTheirId` | roles/trading-app-deploy/files/cpp/src/engine_main.cpp:223-224 | an ExecutionReport counts for the id it was printed with |
| `GatewayThread.Gateway.constructor` | roles/trading-app-deploy/files/cpp/src/engine_main.cpp:193-195 | a new gateway is an initial state of the conversation |
| `GatewayThread.Gateway.Send` | roles/trading-app-deploy/files/cpp/src/engine_main.cpp:201-208 | sending an order is the conversation's send step, with 64-bit counters: from the 501st on the measured time is recorded, and the order's time is put into its slot |
| `GatewayThread.Gateway.Account` | roles/trading-app-deploy/files/cpp/src/engine_main.cpp:224-229 | accounting for a report is the conversation's report step: from the 501st on the time elapsed since the looked-up start is recorded |
| `GatewayThread.Gateway.ReadReport` | roles/trading-app-deploy/files/cpp/src/engine_main.cpp:222-224 | only ExecutionReports count; the id is read as the conversation reads it |
| `GatewayThread.Gateway.HandleNext` | roles/trading-app-deploy/files/cpp/src/engine_main.cpp:221-231 | one round of the loop over complete messages is the conversation's handling step |
| `Pipeline.StepKeepsInv` | roles/trading-app-deploy/files/cpp/src/engine_main.cpp:140-187 | every step of the three threads, both rings and the stop flag keeps the pipeline invariant |
| `Pipeline.GatewayReceivesPrefix` | roles/trading-app-deploy/files/cpp/src/engine_main.cpp:140-187 | at every point of every run, stopped or not, the gateway has popped the first generated ticks put through the rule with ids 1, 2, 3, ...; at most two rings and two items are missing |
| `Pipeline.NothingLostAtRest` | roles/trading-app-deploy/files/cpp/src/engine_main.cpp:140-187 | with no producer stopped or holding an item and both rings empty, the gateway has received an order for every tick |
| `Pipeline.TicksCarryReadings` | roles/trading-app-deploy/files/cpp/src/engine_main.cpp:140-146 | every generated tick carries the clock reading of the round that generated it |
| `System.StepKeepsInv` | roles/trading-app-deploy/files/cpp/src/engine_main.cpp:134-241 | every step of pipeline and network together keeps their joint invariant; the orders sent are those popped |
| `System.RunsAreEndToEnd` | roles/trading-app-deploy/files/cpp/src/engine_main.cpp:134-241 | for any rule and protocol that fit: orders sent are the rule's image of the first ticks, reports carry the ids in order and are timed against their own ticks within the window; at rest every order, and every tick, has its report |
| `Engine.GeneratedOrderIsWellMade` | roles/trading-app-deploy/files/cpp/src/engine_main.cpp:173-177 | the order made of the i-th generated tick is fit to be sent at position i |
| `Engine.SentOrderFits` | roles/trading-app-deploy/files/cpp/src/engine_main.cpp:166-177 | exactly which of the orders sent fit the scratch they were encoded in: all of the first 9,999,999 |
| `Engine.AllTraded` | roles/trading-app-deploy/files/cpp/src/engine_main.cpp:144-177 | each order sent, in plain terms: id, symbol in turn, sides in turn from a purchase on, 5000 at the middle of its tick, and its bytes say so to whoever parses them |
| `Engine.TickToFill` | roles/trading-app-deploy/files/cpp/src/engine_main.cpp:134-241 | the end-to-end result for the program's own strategy and FIX session, in every interleaving with any chunking and a stop at any time; what every order sent contains, and which of the first 99,999,999 fit their buffer |
| `Engine.EveryTickCanBeFilled` | roles/trading-app-deploy/files/cpp/src/engine_main.cpp:134-241 | at every point of every run at which no thread has seen a stop, some continuation of the whole engine and exchange brings every tick generated so far its report |
| `Progress.PipeGoesOn` | roles/trading-app-deploy/files/cpp/src/engine_main.cpp:140-187 | while something generated has not reached the gateway and no thread is stopped, some thread has a step that hands it over or brings that closer |
| `Progress.Deliver` | roles/trading-app-deploy/files/cpp/src/engine_main.cpp:140-187 | from every such state the pipeline can deliver all it has generated |
| `Progress.TicksCanBeReported` | roles/trading-app-deploy/files/cpp/src/engine_main.cpp:134-241 | the same up to the reports, for any rule and protocol that fit |
| `Progress.StopIsPrompt` | roles/trading-app-deploy/files/cpp/src/engine_main.cpp:140-241 | once its loads of the flag return the stop, every own step brings a thread closer to its end, at most ten steps away, and no other thread sets it back |
| `Progress.ThreadsCanStop` | roles/trading-app-deploy/files/cpp/src/engine_main.cpp:140-241 | after the stop no thread is stuck before its end, whatever the rings hold |
| `Progress.SeenStopEnds` | roles/trading-app-deploy/files/cpp/src/engine_main.cpp:140-241 | a thread that has seen the stop ends with its next step |
| `Progress.StopEndsAll` | roles/trading-app-deploy/files/cpp/src/engine_main.cpp:140-241 | from every state a stop can be followed by the end of all three threads within twenty-one steps |
| `FlatMap.Probe` | roles/trading-app-deploy/files/cpp/include/flatmap.hpp:43-55 | the first probe that stops, and that none before it does |
| `FlatMap.ProbeFindsKey` | roles/trading-app-deploy/files/cpp/include/flatmap.hpp:58-67 | a stored key is met before any unused slot |
| `FlatMap.ProbeFindsRoom` | roles/trading-app-deploy/files/cpp/include/flatmap.hpp:43-55 | for a missing key the probe ends at an unused slot, and finds none exactly when every slot is used |
| `FlatMap.StoreRepresents` | roles/trading-app-deploy/files/cpp/include/flatmap.hpp:46-51 | storing at the end of the probe keeps probe chains and unique keys and adds exactly that entry |
| `FlatMap.AssignRepresents` | roles/trading-app-deploy/files/cpp/include/flatmap.hpp:63 | writing through the place of a key replaces exactly that key's value |
| `FlatMap.FullWhenAllUsed` | roles/trading-app-deploy/files/cpp/include/flatmap.hpp:69 | a table holds at most `Cap` entries, and `Cap` exactly when every slot is used |
| `FlatMap.PutRefines` | roles/trading-app-deploy/files/cpp/include/flatmap.hpp:42-56 | `put` is insertion into a map of at most `Cap` keys; it fails exactly when all slots hold other keys |
| `FlatMap.GetRefines` | roles/trading-app-deploy/files/cpp/include/flatmap.hpp:58-67 | `get` is lookup in that map |
| `FlatMap.RunRefines` | roles/trading-app-deploy/files/cpp/include/flatmap.hpp:42-56 | after any sequence of puts the table stands for the bounded map after the same puts |
| `FlatMap.GetReturnsLastPut` | roles/trading-app-deploy/files/cpp/include/flatmap.hpp:42-67 | while at most `Cap` different keys are put, `get` returns exactly the last value put |
| `Fibonacci.Map.constructor` | roles/trading-app-deploy/files/cpp/include/flatmap.hpp:72-73 | a new map is empty |
| `Fibonacci.Map.Find` | roles/trading-app-deploy/files/cpp/include/flatmap.hpp:43-55 | the masked probe loop computes the probe of the specification |
| `Fibonacci.Map.Put` | roles/trading-app-deploy/files/cpp/include/flatmap.hpp:42-56 | contents, answer and size of the map after a put; every key keeps its place |
| `Fibonacci.Map.PutMembers` | roles/trading-app-deploy/files/cpp/include/flatmap.hpp:42-56 | the slots, the size and the answer after a put, as the function that `FlatMap.PutRefines` ties to the map |
| `Fibonacci.Map.Get` | roles/trading-app-deploy/files/cpp/include/flatmap.hpp:58-67 | the place that holds the key's value, or none exactly when the key is missing |
| `Fibonacci.Map.Assign` | roles/trading-app-deploy/files/cpp/include/flatmap.hpp:63 | a write through that place changes the value of its key and nothing else |
| `Fibonacci.Map.Size` | roles/trading-app-deploy/files/cpp/include/flatmap.hpp:69 | the number of keys |
| `Fibonacci.HashIsHalf` | roles/trading-app-deploy/files/cpp/include/flatmap.hpp:37-39 | the hash is half the product modulo twice the capacity: it takes the low bits of the product |
| `Fibonacci.ConsecutiveKeysSpreadEvenly` | roles/trading-app-deploy/files/cpp/include/flatmap.hpp:37-39 | any 2 * Cap consecutive keys modulo 2^64 land exactly twice in each slot |
| `Buckets.InRangeBelowLimit` | roles/trading-app-deploy/files/cpp/include/hist.hpp:38-44 | a value's bucket is inside the array exactly when the value is below 2^40 |
| `Buckets.BucketMonotone` | roles/trading-app-deploy/files/cpp/include/hist.hpp:38-44 | larger values have larger or equal buckets |
| `Buckets.RoundTrip` | roles/trading-app-deploy/files/cpp/include/hist.hpp:38-55 | the bucket of a bucket's representative is that bucket |
| `Buckets.RelativeError` | roles/trading-app-deploy/files/cpp/include/hist.hpp:38-55 | the representative is within 1/128 of the value, and exact below 128 |
| `Buckets.ValueMonotone` | roles/trading-app-deploy/files/cpp/include/hist.hpp:47-55 | representatives grow with the bucket |
| `OrderStatistics.ScanFindsRank` | roles/trading-app-deploy/files/cpp/include/hist.hpp:103-113 | for any monotone bucketing, the scan of the counts stops at the bucket of the sample that sorting puts at the rank |
| `OrderStatistics.Reach` | roles/trading-app-deploy/files/cpp/include/hist.hpp:108-111 | the first bucket whose running total reaches the target |
| `Histogram.PercentileAgreesWithSorting` | roles/trading-app-deploy/files/cpp/include/hist.hpp:103-113 | for ranks 1 to total the reported value is the representative of the sample with that rank, within 1/128 of it, and the fallback is never used |
| `Histogram.PercentilesOrdered` | roles/trading-app-deploy/files/cpp/include/hist.hpp:103-113 | reported percentiles grow with the rank, so p50 <= p99 <= p999 |
| `Histogram.RankZeroReportsZero` | roles/trading-app-deploy/files/cpp/include/hist.hpp:105-111 | rank zero reports zero whatever was recorded |
| `Histogram.SnapshotIsRight` | roles/trading-app-deploy/files/cpp/include/hist.hpp:73-89 | for any sensible rounding of the ranks, p50 <= p99 <= p999 and each is the representative of the sample with its rank (zero for rank zero) |
| `Histogram.SnapshotTotals` | roles/trading-app-deploy/files/cpp/include/hist.hpp:80-84 | the count is the number of samples, the maximum their largest, the mean their sum divided and rounded down while the sum fits its word; without samples everything is zero |
| `Histogram.TwoSamples` | roles/trading-app-deploy/files/cpp/include/hist.hpp:80-84 | 100 and 300 give mean 200 and maximum 300 |
| `Histogram.TotalAppend` | roles/trading-app-deploy/files/cpp/include/hist.hpp:61 | sums of samples add up |
| `Histogram.RankBeyondSamples` | roles/trading-app-deploy/files/cpp/include/hist.hpp:112 | a rank beyond the samples reports the last bucket's value |
| `Histogram.ExactRankIsSensible` | roles/trading-app-deploy/files/cpp/include/hist.hpp:106 | the ranks total * 0.50, 0.99 and 0.999 in exact arithmetic are sensible: n/2, 99n/100 and 999n/1000 rounded down |
| `Histogram.RankZeroForSingleSample` | roles/trading-app-deploy/files/cpp/include/hist.hpp:106 | of a non-empty histogram each of the three ranks is zero exactly when there is a single sample |
| `Histogram.MachineRankIsSensible` | roles/trading-app-deploy/files/cpp/include/hist.hpp:106 | for every IEEE rounding and up to 2^53 samples the ranks computed in doubles are sensible |
| `Histogram.SingleSampleReportsZero` | roles/trading-app-deploy/files/cpp/include/hist.hpp:73-89 | after a single record all three percentiles report zero, whatever the value |
| `Histogram.Histogram.constructor` | roles/trading-app-deploy/files/cpp/include/hist.hpp:115-118 | a new histogram has no samples |
| `Histogram.Histogram.Record` | roles/trading-app-deploy/files/cpp/include/hist.hpp:57-67 | the sample is added; buckets, count, wrapped sum and maximum follow |
| `Histogram.Histogram.Load` | roles/trading-app-deploy/files/cpp/include/hist.hpp:74-79 | the copy and its total are the counts and the number of samples |
| `Histogram.Scan` | roles/trading-app-deploy/files/cpp/include/hist.hpp:103-113 | the loop reports the percentile of the specification |
| `Histogram.Histogram.TakeSnapshot` | roles/trading-app-deploy/files/cpp/include/hist.hpp:73-89 | count, mean, percentiles and maximum of the samples |
| `Histogram.Histogram.Reset` | roles/trading-app-deploy/files/cpp/include/hist.hpp:91-96 | no samples are left |
| `ConcurrentHistogram.BucketsAheadOfCount` | roles/trading-app-deploy/files/cpp/include/hist.hpp:57-60 | in every interleaving of recorders and a snapshot, each recorder's accesses in program order, bucket total minus count is the number of recorders between those two increments |
| `ConcurrentHistogram.QuietTotals` | roles/trading-app-deploy/files/cpp/include/hist.hpp:57-67 | once all recorders are done, count, sum and maximum are those of the recorded values, despite stale loads and failed exchanges |
| `ConcurrentHistogram.BucketsGrow` | roles/trading-app-deploy/files/cpp/include/hist.hpp:57-59 | no bucket ever shrinks along a run |
| `ConcurrentHistogram.SnapshotBetweenStartAndEnd` | roles/trading-app-deploy/files/cpp/include/hist.hpp:74-79 | a snapshot's total lies between the bucket totals at the scan's start and end whenever no load returned a value from before the start |
| `ConcurrentHistogram.NewestLoadsBetweenStartAndEnd` | roles/trading-app-deploy/files/cpp/include/hist.hpp:74-79 | so whenever every load returns the newest value, whatever older values the memory still had |
| `ConcurrentHistogram.SnapshotWithinReach` | roles/trading-app-deploy/files/cpp/include/hist.hpp:74-79 | in any case it lies between the total of the oldest values the loads may return and the bucket total at the end |
| `ConcurrentHistogram.SnapshotsNeverGoBack` | roles/trading-app-deploy/files/cpp/include/hist.hpp:73-79 | whatever the memory does, a later snapshot of the same reader never shows a smaller total than an earlier one |
| `ConcurrentHistogram.NeverBelowStartIffNothingOlder` | roles/trading-app-deploy/files/cpp/include/hist.hpp:74-79 | no completion of a scan can fall below the bucket total at its start exactly when none of its loads may return a value from before the start |
| `ConcurrentHistogram.StaleScanMissesRecord` | roles/trading-app-deploy/files/cpp/include/hist.hpp:74-79 | a concrete run whose stale load misses a value counted before the scan began |
| `ConcurrentHistogram.StepKeepsCounters` | roles/trading-app-deploy/files/cpp/include/hist.hpp:57-61 | every atomic step keeps buckets, count and sum in step with the values started |
| `ConcurrentHistogram.StepKeepsMaximum` | roles/trading-app-deploy/files/cpp/include/hist.hpp:62-66 | every step of the exchange loop keeps each value either in the maximum or in flight |
| `Pool.AcquireTakesHead` | roles/trading-app-deploy/files/cpp/include/pool.hpp:44-49 | acquiring takes the head of the free chain and leaves a well-formed chain |
| `Pool.ReleasePutsInFront` | roles/trading-app-deploy/files/cpp/include/pool.hpp:51-59 | releasing a live slot puts it in front of the chain |
| `Pool.ChainAndLivePartition` | roles/trading-app-deploy/files/cpp/include/pool.hpp:22-26 | the free chain and the live slots partition the pool |
| `Pool.PoolAlways` | roles/trading-app-deploy/files/cpp/include/pool.hpp:32-61 | at every point of every legal run: one acyclic chain used as a stack, a partition with the live slots, `acquire` never returns a live slot and fails exactly when all are live |
| `Pool.LastReleasedFirstAcquired` | roles/trading-app-deploy/files/cpp/include/pool.hpp:44-59 | the slot released last is handed out next |
| `Pool.StrategyLoop` | roles/trading-app-deploy/files/cpp/src/engine_main.cpp:169-185 | after any number of acquire-release rounds the pool is as new |
| `Pool.StrategyNeverDrains` | roles/trading-app-deploy/files/cpp/src/engine_main.cpp:169-185 | the strategy, with one object at a time, always gets an object, and always the same slot |
| `Pool.ObjectPool.constructor` | roles/trading-app-deploy/files/cpp/include/pool.hpp:32-37 | all slots are threaded front to back |
| `Pool.ObjectPool.Acquire` | roles/trading-app-deploy/files/cpp/include/pool.hpp:44-49 | address and store after acquiring, and the chain without its head |
| `Pool.ObjectPool.Release` | roles/trading-app-deploy/files/cpp/include/pool.hpp:51-59 | store after releasing, and the chain with the slot in front; null is ignored |
| `Pool.ObjectPool.Empty` | roles/trading-app-deploy/files/cpp/include/pool.hpp:61 | true exactly when all slots are live |
| `Bump.MaskRoundsUp` | roles/trading-app-deploy/files/cpp/include/bump.hpp:24 | the mask expression is the next multiple, for every power-of-two alignment and address |
| `Bump.RoundUpIsLeast` | roles/trading-app-deploy/files/cpp/include/bump.hpp:24 | that is the least multiple not below the address |
| `Bump.AllocIsExact` | roles/trading-app-deploy/files/cpp/include/bump.hpp:22-29 | the word arithmetic allocates as meant exactly when the request neither wraps into the arena nor is for the empty block at the top of the address space |
| `Bump.WrappingRequestReusesMemory` | roles/trading-app-deploy/files/cpp/include/bump.hpp:22-29 | a concrete request that wraps, is granted and moves the offset back over a block in use |
| `Bump.AllocStep` | roles/trading-app-deploy/files/cpp/include/bump.hpp:22-29 | a request is refused without any change, or gets an aligned block behind everything taken before, less than one alignment further on, and the offset ends exactly at its end |
| `Bump.BlocksNeverOverlap` | roles/trading-app-deploy/files/cpp/include/bump.hpp:22-38 | between resets all blocks are inside the arena, aligned and pairwise disjoint |
| `Bump.BumpAllocator.constructor` | roles/trading-app-deploy/files/cpp/include/bump.hpp:17-18 | a new arena has nothing taken |
| `Bump.BumpAllocator.Alloc` | roles/trading-app-deploy/files/cpp/include/bump.hpp:22-29 | address and arena after a request, as meant unless it wraps or is the empty block at the top |
| `Bump.BumpAllocator.Reset` | roles/trading-app-deploy/files/cpp/include/bump.hpp:37 | nothing is taken any more |
| `Bump.BumpAllocator.Used` | roles/trading-app-deploy/files/cpp/include/bump.hpp:38 | the bytes taken, never more than the size |

## Left out

- Codec.WriteField: asks for room for the field; the program writes unchecked, and what happens past the end of a buffer is undefined.
- Codec.Builder.AddText: asks for room in the 480-byte body, for the same reason; `Exchange.ReplyFitsExactly` and `Messages.NosLength` say when the program's own messages have it.
- Codec.Builder.AddNumber: the same.
- Codec.Builder.Finalize: asks for an output buffer that holds the message; 503 bytes are always enough.
- Handlers.EncodeOrder: asks for a buffer that holds the message, for the same reason; `Messages.NosLength` says when the 112-byte scratch does.
- Handlers.Connection.Answer: asks for a reply within the exact length of `Exchange.ReplyFitsExactly`, beyond which the program's behaviour is undefined.
- Handlers.Connection.Handle: the same.
- Handlers.Connection.Receive: the same, and for sound headers: with an unsound one the program's loop may not end.
- Engine.TickToFill: the encoded order is a string of any length; where it says that an order does not fit its buffer, the program's behaviour is undefined and the run says nothing about it.
- Histogram.Histogram.Record: takes values below 2^40 only, since larger ones index outside the array; bucket counts and the sample count are unbounded, since 2^64 records are out of reach. The retry loop on the maximum is in `ConcurrentHistogram`.
- Histogram.Histogram.TakeSnapshot: how `total * p` is rounded in floating point is a parameter; what is proved holds for every sensible ranking, which every IEEE rounding gives up to 2^53 samples.
- ConcurrentHistogram.BucketsAheadOfCount: the accesses of one recorder take effect in program order, which is more than relaxed atomics promise an outside observer. Reset during recording is not modelled.
- Fibonacci.Map.Get: a place is a slot position; an unused slot holds no value where the program has a default one.
- Pool.ObjectPool.Release: asks for a live object or null, as the program does; object construction and destruction are just the value a slot holds.
- Bump.BumpAllocator.Alloc: an address is a number, so an arena at address zero hands out zero as a block where a caller would take it for a refusal; `make`, which constructs an object in the block, is left out.
- GatewayThread.Gateway.Send: the samples are kept as lists, which `Histogram` and `ConcurrentHistogram` account for.
- Session.EveryOrderCanBeFilled: speaks of the conversation alone, where receiving is not tied to the gateway's loop; `Engine.EveryTickCanBeFilled` ties it to the gateway being between two pops and not ended.
- Engine.EveryTickCanBeFilled: between two pops the gateway may receive any number of chunks, where the program receives once per round; the rounds in between, which pop nothing, are left out of the continuation.
- Sockets, `send_all`, `recv` and connection loss: TCP is a FIFO of bytes delivered in chunks of any size.
- The logon exchange before the first order: the conversation starts after it, with any sequence number on the exchange's side.
- Time: the time-stamp counter, pacing, calibration and conversion to nanoseconds are arbitrary numbers supplied from outside.
- The third ring, the logger and the metrics server: log events may be dropped and nothing depends on them.
- CPU affinity, real-time scheduling, huge pages (`huge.hpp` repeats the bump allocation), command-line parsing and signals.
- CRTP against virtual dispatch, the strong price types and the binary order demo: each is settled by reading one function.
- `size_approx` of the ring, and the `malloc` alternative to the pool.
- Benchmarks, deployment roles, scripts and the monitoring plugin.
