# Verification of framewire

framewire measures what a shader chain costs: a producer beside each mpv instance turns pass timings into
fixed size records, a lock free ring in shared memory carries them to one aggregator, and the aggregator
keeps histograms and windows, groups the frames of the instances, and reports intervals. This project models
those parts in Dafny and proves what they promise. To check all of it:

    dafny verify dfyconfig.toml --resource-limit 2000000 --verification-time-limit 0 --warn-contradictory-assumptions

## What is proved, component by component

**The ring** (`RingProtocol`, `RingProofs`, `RingCalls`, `RingTheorems`, `RingQueue`). Two processes take small
steps over acquire/release memory: plain stores form a log, an acquire load may return any store that is not older
than the newest one that side has seen, a plain load may return a stale or a half finished store. On every legal
interleaving each step is a step of a bounded first in first out queue of whole records: a push stores the record it
was given, a pop hands over no more than it was asked for. The write of a slot and the copy of that slot never
overlap; a push fails only when the tail it loaded leaves no room; calls with room or records can always be brought
to their end; a consumer that saw the done flag and then counted nothing pending has received everything. Indices
are 64 bit and wrap: every decision on them is the one that unbounded counts would give. `RingQueue` is the same
code as methods on classes, proved to be an exact bounded queue when called one at a time.

**The pass directory** (`Directory`, `DirectoryProtocol`). Names are written byte by byte with plain stores and
published by a version. Whatever mixture an earlier read copied, a refresh that loads the newest version while no
publish runs leaves the consumer with the latest directory, each name as far as 47 bytes hold it, and this holds
exactly below 2^32 - 1 publishes.

**The correlator** (`Correlation`, `Matching`, `Schedule`, `Settling`, `CorrelatorClass`, `EndToEnd`). Over streams
with nondecreasing keys the greedy merge makes as many groups as any way of choosing disjoint groups within the
tolerance (an exchange argument). As long as no queue passes its cap, groups and unmatched counts do not depend on
how pushing and processing interleave exactly for those patterns of media positions in which some stream has none at
all or every stream's first record has one, whatever the tolerance (`Settling`). Per stream, pushed = grouped +
unmatched + queued, always. The class with its loops is proved equal to the function these theorems are about. The
producers' media keys supply the ordering assumed, and for any tolerance the groups are as many as any matching by
position makes exactly when no record was made at position 0, some stream is empty or nothing matches (`EndToEnd`).
The schedules that show the failures have stamps that never go back.

**Histogram, windows, intervals** (`Bits`, `HistogramLayout`, `HistogramCounts`, `HistogramClass`, `Quantiles`,
`Windows`, `Wilson`). The bit arithmetic of the index maps partitions the tracked range; a quantile answers with the
top of the slot of the sample at that quantile, which is pinned down by counting samples; merging is recording both
sample lists exactly when the precisions are equal. A window holds the last samples, and its interval brackets its
quantile. The Wilson bounds are exactly the proportions the score test keeps.

**JSON and framing** (`JsonSyntax`, `JsonParser`, `JsonComplete`, `JsonRfc`, `JsonTree`, `JsonReader`, `JsonWalk`,
`JsonValues`, `Utf8Reader`, `JsonWriter`, `Doubles`, `Framing`). The grammar is given without a parser; the reader
accepts exactly its texts, as a class that appends nodes in place, and following the links of its node array reads
back the document. Every value that is written out reads back as itself, and escaping then reading is the identity
on all byte strings. Commands written one after the other and cut into any chunks come out of the line buffer as the
same words and ids; which streams can overflow its limit is characterised exactly. Ids survive the double they are
read into up to 2^53.

**Producer, checksum, counters** (`Producer`, `ProducerCounts`, `ProducerLoop`, `Checksum`, `Pipeline`,
`PipelineOnRing`, `Stress`). Poll credits, the loop epoch of the media key, FNV-1a against one byte changes, and the
counters from sequence number to totals, which every run of the ring protocol drives with the records that went
through it.

## Where the code and its documentation differ

- docs/design.md:11-12 says index wraparound is not handled. The code is right under wraparound (`RingTheorems.WrapIsInvisible`).
- docs/design.md:85 and src/stats.cpp:199-213 say that frames are matched on media position, not on arrival time. Records
  that come without a position before the mode settles can be paired by arrival on one schedule and by position on
  another (`Settling.SettledIff`), and a record made at position 0 counts as one without: it is keyed by its arrival
  stamp, and one at the head of a stream can keep the others from being grouped (`EndToEnd.PositionZeroBlocks`,
  `EndToEnd.FollowableRunsPairBestIff`).
- src/histogram.cpp:37-38 and docs/design.md:72 promise under 0.1 percent at three digits. That holds of the answers for
  all tracked samples up to m exactly when m < 2048 or nothing from 2048 on is tracked
  (`HistogramCounts.TenthPercentHoldsIff`); 2048 is reported as 2051. One part in 512 holds throughout.
- src/histogram.cpp:98-99 says a quoted percentile is never optimistic. That holds exactly for samples inside the
  tracked range (`HistogramCounts.NeverOptimisticIff`).
- src/histogram.cpp:137 takes equal slot counts for equal layouts. Layouts of different precision can have equally many,
  and a merged 50 then reads back as 351 (`HistogramClass.MergeAcrossPrecisions`). Merging is sound exactly when the
  precisions are equal (`HistogramCounts.MergeIsSoundIff`).
- src/json.cpp:426-431 accepts `1.`, which section 6 of RFC 8259 does not (`JsonComplete.PointWithoutDigits`). An accepted
  document is RFC 8259 text exactly when it holds no such number (`JsonRfc.RfcTextIff`).
- src/producer_main.cpp:54 places query ids below the poll ids. Size queries start at 150 and one is made every two seconds,
  so the 851st has a poll's id, and from there the credit law can fail (`Producer.CreditLawIff`). Poll replies that a size
  query reads past are lost credits (`Producer.FourCanBeLost`). Another poll can be asked exactly as long as fewer than four
  are lost (`Producer.CanAskIff`); after that no poll is ever sent again (`Producer.FourLossesStopPolling`).
- include/framewire/stats.h:179 starts the cached layout version at 2^32 - 1, so the directory converges for exactly fewer
  publishes than that (`DirectoryProtocol.ConvergesIff`).

## Model

| member | source | states |
|---|---|---|
| Bits.PowerOfTwoTrick | src/spsc_ring.cpp:23 | v != 0 and v & (v - 1) == 0 holds exactly for the powers of two |
| RingProofs.WrapSlot | src/spsc_ring.cpp:181 | masking a wrapped index gives the unbounded index modulo the capacity, for every power of two capacity |
| RingProofs.FullTest | src/spsc_ring.cpp:165-173 | the modular fullness test agrees with unbounded counts, and full means exactly one capacity ahead |
| RingProofs.EmptyTest | src/spsc_ring.cpp:247-252 | emptiness by equality and the number available by modular subtraction agree with unbounded counts |
| RingProofs.OnlyTheWantedWord | src/spsc_ring.cpp:275-282 | of all stores a plain load of a slot word may return, stale and half made ones included, the wanted record's word is the only one allowed |
| RingProofs.RunKeeps | src/spsc_ring.cpp:159-288 | indices, store log, running copy and done flag keep their invariant in every reachable state |
| RingTheorems.RefinesQueue | src/spsc_ring.cpp:159-288 | every step of every run is an enqueue with room of the record that the push was given, a dequeue of the oldest records, at least one and no more than the pop was asked for, or nothing, on a queue that never exceeds the capacity |
| RingCalls.BatchStarts | src/spsc_ring.cpp:264-278 | a copy that a pop starts is exactly as long as what the head it goes by shows, cut to what the pop was asked for |
| RingCalls.BatchEnds | src/spsc_ring.cpp:264-288 | so many records are handed over after those before them |
| RingCalls.CopyNeverStuck | src/spsc_ring.cpp:275-282 | a copy under way can always go on: the store it has to return next is never hidden by a later one that is seen |
| RingCalls.PushCanEnd | src/spsc_ring.cpp:159-189 | from every reachable state with room a push can end with its record stored |
| RingCalls.PopCanEnd | src/spsc_ring.cpp:264-288 | from every reachable state with a record waiting a pop that may take one can end with records handed over |
| RingTheorems.DeliveredIsPrefix | src/spsc_ring.cpp:264-288 | the records delivered are a prefix of the records accepted, whole and in order |
| RingTheorems.PushFailsOnlyWhenFull | src/spsc_ring.cpp:165-178 | a push gives up exactly when the tail it loaded leaves no room; with the newest tail exactly when the ring is full |
| RingTheorems.PopEmptyOnlyWhenEmpty | src/spsc_ring.cpp:247-253 | a pop comes back empty exactly when the head it loaded shows nothing; with the newest head exactly when the ring is empty |
| RingTheorems.NoOverlap | src/spsc_ring.cpp:165-187 | while a slot is written no record being copied lies in it, and the record one lap earlier has left |
| RingTheorems.WrapIsInvisible | src/spsc_ring.cpp:163-181 | in every reachable state fullness, emptiness, count and slot computed on wrapped 64 bit indices are those of unbounded indices |
| RingTheorems.ExitMissesNothing | src/stress_main.cpp:379-383 | at an exit of a consumer that saw the done flag and then counted nothing pending, it has received every record accepted, and neither side can take another step |
| RingCalls.LeavesIff | src/stress_main.cpp:379-383 | counting after the flag was seen lets the consumer leave exactly when nothing is left, and it goes on otherwise |
| RingCalls.CanLeave | src/stress_main.cpp:379-383 | once the flag is set and everything is delivered the consumer can leave |
| RingTheorems.CountingFirstCanMiss | src/spsc_ring.cpp:318-332 | counting before testing the flag could miss a record: a run in which the flag is set, a record waits and a permitted load of head shows nothing pending |
| RingQueue.RingProducer.TryPush | src/spsc_ring.cpp:159-189 | alone: stores the record exactly when there is room, otherwise only counts a drop |
| RingQueue.RingConsumer.TryPop | src/spsc_ring.cpp:242-262 | alone: takes the oldest record, failing exactly on an empty ring |
| RingQueue.RingConsumer.PopBatch | src/spsc_ring.cpp:264-288 | alone: moves the oldest records in order into the output, none only if it may take none or there are none, and touches nothing past them |
| RingQueue.Ring.PendingCount | src/spsc_ring.cpp:318-322 | the number of records waiting |
| Directory.PublishWritten | src/spsc_ring.cpp:191-205 | after a publish slot i holds a terminated text that is the start of name i, up to its first zero byte or 47 bytes, or is empty past the last name, and the count is that of the names but at most 32, whatever was there before |
| Directory.WholeNameShows | src/spsc_ring.cpp:195 | a name without a zero byte and of at most 47 bytes comes back as itself |
| DirectoryProtocol.StepKeeps | src/stats.cpp:61-77 | every store, load, refresh and start of a publish keeps what ties reads and the cached copy to memory |
| DirectoryProtocol.RefreshConverges | src/stats.cpp:61-77 | with no publish under way a refresh that loaded the newest version leaves the count and, for each of the latest names, its start up to the first zero byte or 47 bytes, also after torn reads and when versions match |
| DirectoryProtocol.ConvergesIff | include/framewire/stats.h:179 | that convergence is certain after n publishes exactly when n < 2^32 - 1 |
| Matching.MergeIsMaximal | src/stats.cpp:283-316 | with nondecreasing keys no choice of disjoint one record per stream groups within the tolerance has more groups than the merge |
| Matching.MergeIsMatching | src/stats.cpp:283-316 | the merge's groups are such a choice, of exactly the records they hold |
| Schedule.MergeAppend | src/stats.cpp:283-316 | merging, then appending records and merging on decides what merging everything at once decides |
| Schedule.Conservation | src/stats.cpp:235-337 | at every point of every schedule each stream has pushed = grouped + unmatched + queued |
| Schedule.ModeSettles | src/stats.cpp:241-247 | when some stream never has a position, or every stream's first record has one: while not every stream has shown a position some queue is still empty, so no decision is made on the wrong key |
| Schedule.ScheduleIsMerge | src/stats.cpp:235-325 | under that condition any schedule that never trips the queue cap, once flushed, has the groups and unmatched counts of pushing everything and merging once |
| Schedule.ScheduleIndependence | src/stats.cpp:235-337 | under that condition two schedules that push the same records and never trip the queue cap end with the same groups and unmatched counts |
| Schedule.ScheduleIsOptimal | src/stats.cpp:283-316 | under that condition, on any schedule over ordered streams that never trips the queue cap, the groups are a matching of the pushed records and none has more |
| Settling.SettledIff | src/stats.cpp:214-248 | for every pattern of present and missing positions, every tolerance, and stamps that never go back in a stream, below any limit with room for twice the tolerance: the schedule cannot matter exactly when some stream has no position at all, every stream's first record has one, or the tolerance is negative |
| CorrelatorClass.Correlator.constructor | src/stats.cpp:219-233 | starts empty, with at least two streams |
| CorrelatorClass.Correlator.Push | src/stats.cpp:235-248 | appends in order to one queue, notes media positions and settles the key; an unknown stream changes nothing |
| CorrelatorClass.Correlator.EmitGroup | src/stats.cpp:250-281 | takes the front of every queue as one group; for each stream the totals kept are its gpu totals over all groups, the differences added to the baseline's totals give its own, and the cheaper count is the number of groups in which it took less |
| Correlation.ToInt64Wraps | src/stats.cpp:251-257 | reading a 64 bit word as signed changes it by a multiple of 2^64 into the signed range |
| CorrelatorClass.Correlator.Process | src/stats.cpp:283-337 | the loop with its scan, flush and queue cap computes the merge, then retires everything or the excess |
| Schedule.CapKeepsNewest | src/stats.cpp:326-337 | past 65536 queued records the oldest go and are counted as unmatched, and the newest stay |
| CorrelatorClass.Correlator.Reset | src/stats.cpp:392-406 | back to the starting state |
| EndToEnd.PositionZeroBlocks | src/stats.cpp:214-217 | with one stream at position 0 and any tolerance there are stamps that never go back and a schedule on which the merge makes no group |
| EndToEnd.BestIff | src/stats.cpp:283-316 | for any tolerance, over ordered positions and all schedules with stamps that never go back and no queue past the cap: the groups are as many as any matching by position makes, exactly when no record lies at position 0, some stream has none, or nothing matches |
| EndToEnd.FollowableRunsPairBestIff | src/stats.cpp:283-316 | the same over the loops of the producers: with followable positions, whatever the rings drop, for any tolerance and all such schedules, the groups are as many as any matching by position makes exactly when no kept record was made at position 0, some stream kept none, or nothing matches |
| HistogramClass.MagnitudeForDigits | src/histogram.cpp:20-27 | the least power of two that reaches ten to the number of digits |
| HistogramClass.SizeFor | src/histogram.cpp:31-61 | the sizing covers the whole range with no bucket to spare, including the stop at 2^63, and refuses other precisions |
| HistogramLayout.BucketIndexIs | src/histogram.cpp:66-68 | the bucket computed from leading zeros is the one whose doubled range holds the value |
| HistogramLayout.SlotIsInterval | src/histogram.cpp:63-92 | a value maps to slot i exactly when it lies from slot i's least value up to slot i + 1's |
| HistogramLayout.IndexMonotone | src/histogram.cpp:63-79 | greater values never map to lesser slots |
| HistogramLayout.MapsAreInverse | src/histogram.cpp:63-92 | the two index maps are inverse on every slot of every legal layout |
| HistogramLayout.TrackedBelowLimit | src/histogram.cpp:104-108 | a value has a slot of its own exactly when it is below the limit, so nothing up to the trackable maximum is clamped |
| HistogramLayout.ReportedError | src/histogram.cpp:94-102 | the top of a slot is at least the value, equal to it in bucket zero, and above it by less than one part in half_count |
| HistogramCounts.ScanFindsSlot | src/histogram.cpp:128-133 | the first slot at which the running count reaches r is the slot of the r-th smallest sample |
| HistogramCounts.AnswerError | src/histogram.cpp:117-134 | an answer for a tracked sample is at least it, exact below the sub bucket count, and above it by less than one part in half_count |
| HistogramCounts.NeverOptimisticIff | src/histogram.cpp:98-102 | an answer is never below its sample exactly when the sample is inside the tracked range |
| HistogramCounts.TenthPercentHoldsIff | src/histogram.cpp:37-38 | at three digits the promised tenth of a percent holds of the answers for all tracked samples up to m exactly when m < 2048 or nothing from 2048 on is tracked |
| HistogramCounts.SameSlotsIff | src/histogram.cpp:136-140 | legal layouts of equal size agree on every slot exactly when their precision is equal |
| HistogramCounts.MergeIsSoundIff | src/histogram.cpp:136-148 | for legal layouts of equal size the slotwise sum is the histogram of both sample lists, for all samples, exactly when their precision is equal |
| HistogramClass.MergeAcrossPrecisions | src/histogram.cpp:136-148 | two layouts made by the sizing, one and two digits, have 128 slots each: a sample of 50 merged from the second into the first reads back as 351 |
| HistogramClass.Histogram.Record | src/histogram.cpp:104-115 | adds the sample, zero as one, to the counters, the minimum, the maximum and the sum, each of which stays that of the samples |
| HistogramClass.Histogram.Mean | src/histogram.cpp:158-161 | times the number of samples it is their exact sum; zero when empty |
| HistogramClass.Histogram.ValueAtQuantile | src/histogram.cpp:117-134 | on counters that hold samples: the answer for a sample e that at least q of the samples do not exceed and fewer than q of them lie below, the least for q <= 0 and the greatest for q > 1; zero when empty; on any other counters of the same total, the answer of the first slot that reaches the rank |
| HistogramClass.Histogram.Merge | src/histogram.cpp:136-148 | adds the counts slot by slot, and the totals, with itself too; with equal layouts the result is the histogram of both sample lists; unequal sizes are refused |
| Quantiles.SortedReadsNth | src/histogram.cpp:178-205 | reading the sorted samples at rank r gives the r-th smallest by counting |
| Quantiles.RankPicksQuantile | src/histogram.cpp:117-126 | the sample that the rounded and clamped rank picks is the one at the quantile, by counting samples |
| Quantiles.QuantileIsUnique | src/histogram.cpp:117-126 | there is one sample at a quantile |
| Windows.RecordHolds | src/histogram.cpp:167-171 | writing into the circular buffer keeps it the last min(n, capacity) samples |
| Windows.Window.Record | src/histogram.cpp:224-228 | the window goes on holding the last min(n, capacity) samples since the reset |
| Windows.Window.ValueAtQuantile | src/histogram.cpp:235-247 | the held sample at the quantile: at least q of them do not exceed it and fewer than q lie below, the least for q <= 0 and the greatest for q > 1; zero when empty |
| Windows.Window.QuantileInterval | src/histogram.cpp:249-277 | refused below eight samples, otherwise the held samples at n q - s, rounded down, and at n q + s, rounded up, where s is z roots of n q (1 - q) |
| Windows.ReadsQuantile | src/histogram.cpp:178-205 | reading the sorted window at the clamped rank gives the sample at the quantile |
| Windows.Window.Newest | src/histogram.cpp:214-218 | the last sample recorded, zero when empty |
| Windows.IntervalHoldsQuantile | src/histogram.cpp:249-277 | for any z > 0 such an interval holds the sample at the quantile |
| Windows.SignificantIff | src/stats.cpp:366-370 | a comparison is significant exactly when the interval does not hold zero |
| Windows.VerdictAgrees | src/dashboard.cpp:426-428 | a significant comparison has a point difference of the strict sign of both bounds, and the verdict says which |
| Wilson.IntervalIsScoreSet | src/stats.cpp:408-424 | the bounds enclose exactly the x with n (p - x)^2 <= z^2 x (1 - x), contain p, and lie within 0 and 1 |
| Wilson.ClampsAreIdle | src/stats.cpp:422-423 | the clamps to 0 and 1 never move a bound |
| Wilson.Mirrors | src/stats.cpp:408-424 | swapping successes with failures mirrors the interval |
| Wilson.MoreTrialsNarrow | src/stats.cpp:408-424 | more trials at the same proportion give a strictly narrower interval |
| JsonParser.DocumentSound | src/json.cpp:144-159 | whatever is accepted is a legal document and exactly the text that was read |
| JsonComplete.DocumentComplete | src/json.cpp:144-159 | every legal document is accepted, with the syntax it was written from |
| JsonComplete.AcceptsExactly | src/json.cpp:144-159 | the accepted byte strings are exactly the texts of the grammar under 32 containers with numbers in range, and each has one syntax |
| JsonComplete.PointWithoutDigits | src/json.cpp:426-431 | a number may end in its decimal point |
| JsonRfc.OneSyntax | src/json.cpp:144-159 | a text has at most one syntax in the grammar, whatever its depth and numbers |
| JsonRfc.RfcTextIff | src/json.cpp:426-431 | an accepted document is RFC 8259 text exactly when no number in it ends in its decimal point |
| JsonRfc.RfcTextAcceptedIff | src/json.cpp:144-159 | an RFC 8259 text is accepted exactly when it keeps to the depth limit and the conversion takes its numbers |
| JsonRfc.NestingIff | src/json.cpp:161-162 | arrays in each other are accepted exactly when the innermost lies in no more of them than the limit |
| JsonReader.JsonDoc.SkipWhitespace | src/json.cpp:133-142 | moves past exactly the leading white space |
| JsonReader.JsonDoc.AppendUtf8 | src/json.cpp:307-326 | appends the UTF-8 form of any code point up to 0x10FFFF and refuses the rest |
| JsonReader.JsonDoc.ParseString | src/json.cpp:328-404 | succeeds exactly on the grammar's strings and appends what they stand for, surrogate pairs joined and lone ones replaced |
| JsonReader.JsonDoc.ParseNumber | src/json.cpp:406-449 | succeeds exactly on the grammar's numbers that the conversion takes whole, and keeps their text |
| JsonReader.JsonDoc.ParseGroup | src/json.cpp:219-305 | reads members in place: children linked in order, counted and keyed, or fails with no nodes left |
| JsonReader.JsonDoc.ParseValue | src/json.cpp:161-217 | appends the nodes of exactly the value that the grammar finds, up to 32 containers deep |
| JsonReader.JsonDoc.Parse | src/json.cpp:144-159 | succeeds exactly on legal documents, with the node array of their meaning; otherwise the array is empty |
| JsonValues.WrittenReadsBack | src/json.cpp:144-217 | every value, spelled out as null, true, false, number, escaped string or nested group with any space around it, reads back as that value |
| JsonValues.ParseWritten | src/json.cpp:144-217 | the reader turns that text into the node array of the value |
| JsonValues.LiteralNodes | src/json.cpp:186-200 | for the literals that is one node: a null, or a boolean of that truth |
| JsonTree.LinksReadBack | src/json.cpp:219-305 | links strictly increase, following them reads back the document, and every node is met once, in order |
| JsonTree.CountIsChainLength | src/json.cpp:254-255 | each child count is the length of the sibling chain |
| JsonTree.OneDocument | src/json.cpp:144-159 | a node array stands for one document only |
| JsonWalk.Find | src/json.cpp:44-56 | the first member of that name, and none for other values or names |
| JsonWalk.At | src/json.cpp:58-67 | the child at that position, and none past the last |
| Utf8Reader.Utf8ReadsBack | src/json.cpp:307-326 | every encoded code point decodes to itself in its shortest form, whatever follows |
| Utf8Reader.PairsCoverTheRest | src/json.cpp:375-390 | each code point past 0xFFFF is written by exactly one surrogate pair |
| Utf8Reader.HexReadsBack | src/json.cpp:24-29 | four hex digits in any mixture of cases spell their code unit |
| Utf8Reader.EscapeStandsFor | src/json.cpp:365-395 | an escape of four hex digits stands for its code point, and half of a pair alone for U+FFFD |
| Utf8Reader.ShortEscapesAre | src/json.cpp:345-363 | which letters may follow a backslash and what they stand for |
| Utf8Reader.CharactersAre | src/json.cpp:133-142 | which characters count as space, digits and hex digits |
| JsonWriter.EscapeTo | src/json.cpp:459-481 | appends the quoted, escaped form of any byte string |
| JsonWriter.EscapeThenRead | src/json.cpp:459-481 | reading an escaped string gives the string back, for every byte string |
| JsonWriter.EscapedIsPrintable | src/json.cpp:459-481 | escaped text holds no newline or other control character |
| JsonWriter.DecimalReadsBack | src/json.cpp:487-492 | the decimal text of a number reads back as the number |
| JsonWriter.DecimalIsBaseTen | src/json.cpp:487-492 | 9018 is written as 9018 and -7 as -7 |
| JsonWriter.BuildMpvCommand | src/json.cpp:496-506 | writes the document of the words and the id, then a newline |
| JsonWriter.BuildMpvObserveCommand | src/json.cpp:484-494 | writes the document of the observe request, then a newline |
| JsonWriter.CommandRoundTrip | src/json.cpp:484-506 | reading a command's line gives back its words and ids, for any bytes in them |
| JsonWriter.KeysAre | src/json.cpp:484-506 | the member names and the observe word as they are spelled |
| Doubles.ExactIff | src/json.cpp:77-83 | correct rounding leaves an integer alone exactly when it is 53 bits times a power of two |
| Doubles.IdsReadBackIff | src/json.cpp:77-83 | all ids up to m come back from their decimal text through a double exactly when m <= 2^53 |
| Framing.LineBuffer.TakeBufferedLine | src/ipc_client.cpp:143-156 | takes the first complete line off the buffer, or says that there is none, which the scan position never hides |
| Framing.LineBuffer.PollLine | src/ipc_client.cpp:158-212 | no byte is lost, doubled or reordered; an overflow means an unbroken run longer than the limit less one chunk, and comes exactly when the bytes received so far call for it |
| Framing.LineBuffer.DrainLines | src/ipc_client.cpp:158-212 | the lines taken are exactly the complete lines of everything received, the rest stays, and it overflows exactly when what arrives fills the buffer before a newline |
| Framing.LinesMakeUpWhole | src/ipc_client.cpp:143-156 | the lines of a byte stream, each with its newline, and the rest make up the whole, and no newline is left in them |
| Framing.ChunkingIsInvisible | src/ipc_client.cpp:143-156 | however a byte stream is cut into chunks the same lines come out |
| Framing.CommandsSurvive | src/ipc_client.cpp:102-129 | commands written one after the other and cut into any chunks come out as the same words and ids, on a buffer without a limit |
| Framing.DrainCommands | src/ipc_client.cpp:158-212 | over the buffer with its 4 MiB limit: a stream of commands overflows it only if it has a long line, so not when each line is below the limit less one chunk; the drained lines read back as the first commands, as all of them once everything has arrived |
| Framing.OverflowIff | src/ipc_client.cpp:158-212 | some cut of a byte stream into chunks overflows a fresh buffer exactly when a line leaves less than a chunk of room, with more than the limit of bytes from its start on |
| Producer.CreditLaw | src/producer_main.cpp:405-423 | with at most 850 size queries each credit is a poll in flight or a lost reply, and at most four polls are in flight |
| Producer.CreditLawIff | src/producer_main.cpp:183-204 | that balance can be relied on for exactly as many size queries as fit below the poll ids; the failing run has its startup query answered, as later queries need |
| Producer.FourLossesStopPolling | src/producer_main.cpp:190-195 | once four poll replies are lost no poll is asked and no record made again |
| Producer.FourCanBeLost | src/producer_main.cpp:183-204 | four polls and a later size query that reads past their replies are a legal run that loses four |
| Producer.CanAskIff | src/producer_main.cpp:405-423 | after a run with its startup query made and at most 850 size queries, some legal way on asks another poll exactly when fewer than four replies are lost |
| Producer.KeyMovesForwardIff | src/producer_main.cpp:392-405 | the media key does not move back in a step exactly when the position is not less or more than one second less |
| Producer.KeysSortedIff | src/producer_main.cpp:392-405 | over a whole run the key never moves back exactly when that holds of every position |
| Producer.RecordKeysSorted | src/producer_main.cpp:466-468 | then the keys of the records, numbered in order, are nondecreasing |
| ProducerCounts.KeyFollowsPosition | src/producer_main.cpp:389-405 | while a video plays on the key moves by as many whole nanoseconds as the position; when it falls back by more than a second the key goes on from where it was and a loop is counted |
| ProducerCounts.OnlyPositionsMoveKey | src/producer_main.cpp:389-405 | nothing else moves the key |
| ProducerCounts.RecordsTakeKeys | src/producer_main.cpp:420-468 | each record comes from a reply with passes, in order, and carries the key as it stood then |
| ProducerCounts.CountersCount | src/producer_main.cpp:345-483 | ticks, parse errors, poll errors, records and size queries are each counted once |
| ProducerCounts.OutstandingInRange | src/producer_main.cpp:405-423 | the count of polls in flight never falls below zero and never passes four, whatever is received |
| ProducerCounts.KnownSizeStays | src/producer_main.cpp:339-352 | a width once known stays known, and each later size that can be rendered to replaces it |
| ProducerLoop.EventLoop.Run | src/producer_main.cpp:345-483 | the loop over its variables computes the state these laws are about |
| Checksum.StepIsInjective | include/framewire/telemetry.h:124-132 | a hash round loses neither the state nor the byte: the prime is invertible modulo 2^32 |
| Checksum.DifferenceStays | include/framewire/telemetry.h:124-132 | byte strings that differ in one place have different hashes |
| Checksum.Fnv1a | include/framewire/telemetry.h:124-132 | the loop computes the hash |
| Checksum.KnownHashes | include/framewire/telemetry.h:124-132 | the hashes of the empty text and of "a" are the published ones |
| Checksum.StampChecksum | include/framewire/telemetry.h:143-145 | writes only the checksum field, and the record then verifies |
| Checksum.VerifyChecksum | include/framewire/telemetry.h:155-157 | compares the stored field with the hash of the 188 bytes before it |
| Checksum.OneByteIsCaught | include/framewire/telemetry.h:155-157 | changing any one byte of a stamped record, the field included, is noticed exactly when it changes the byte |
| Checksum.OneByteChangesChecksum | include/framewire/telemetry.h:143-157 | two stamped records that differ in one covered byte have different checksums |
| Pipeline.StreamAggregator.Pump | src/stats.cpp:79-130 | counts every record of a batch as a record or as a checksum error, and the sequence gaps |
| Pipeline.StreamAggregator.ResetStats | src/stats.cpp:181-197 | clears the totals but not the last sequence number |
| Pipeline.CorruptOnlyCount | src/stats.cpp:88-104 | a corrupt record adds one checksum error and leaves everything else as it would be without it |
| Pipeline.GapsAreJumps | src/stats.cpp:99-104 | on intact records the gaps are the places where a number does not follow the one before it |
| Pipeline.Conservation | src/stats.cpp:79-130 | seq = head + dropped, head = popped + pending, popped = records + checksum errors, on every run and across resets |
| Pipeline.GapsAreDropRuns | src/stats.cpp:99-104 | with no corrupt record the gaps are the maximal runs of dropped pushes before the last record delivered |
| PipelineOnRing.RingDrivesPipeline | src/stats.cpp:79-130 | when the producer numbers its pushes, every run of the ring protocol is a legal run of these counters: their queue is the records the ring holds, read field by field, their totals those of the records it delivered, and the lost pushes those it gave up |
| PipelineOnRing.RingConserves | src/stats.cpp:79-130 | on every run of the ring protocol: pushes ended = accepted + dropped, accepted = delivered + pending, and counting the delivered records gives delivered = records + checksum errors |
| PipelineOnRing.RingGapsAreDropRuns | src/stats.cpp:99-104 | on every run of the ring protocol with numbered, intact records the gaps between the numbers of the delivered records are the maximal runs of pushes the ring gave up before the last of them |
| Stress.RunConsumer | src/stress_main.cpp:349-404 | the counting loop over batches computes the account |
| Stress.OrderErrorsIff | src/stress_main.cpp:395-402 | no order error is counted exactly when the numbers only rise |
| Stress.OrderErrorsAreFalls | src/stress_main.cpp:395-402 | one order error is counted at each number that does not rise over the one before it |
| Stress.GapsFillTheRange | src/stress_main.cpp:395-402 | received plus skipped fill the range from the first number to the last |
| Stress.CleanMeansContiguous | src/stress_main.cpp:395-402 | a report without order errors and gaps means that the numbers came one after the other |

## Left out

- Memory model: the ring and the directory run on an operational acquire/release machine (store log, views, per cell staleness), not on the full C++ memory model; compiler and processor reordering beyond it is not modelled.
- `RingMapping::Create` and `Open`, shared memory, sockets, poll, clocks, signals and fork are foreign; time appears as free flags on events.
- The heartbeat branch of `ProducerGone` guesses liveness from a clock and is not modelled; the exit test is proved for the done flag.
- JsonReader.JsonDoc.Parse: does not model the 32 bit width of node indices and pool offsets, or the error text and its byte position; a number keeps its text, because the conversion to a double is a parameter that says which texts it accepts.
- JsonReader.JsonDoc.ParseNumber: keeps the text of the number, for the same reason.
- JsonWriter.CommandRoundTrip: an id comes back as its exact decimal text and value; Doubles.IdsReadBackIff says which the double then holds.
- Doubles.ExactIff: the exponent range of a double and the cast of a double past 2^63 are not modelled; no id comes near either.
- JsonComplete.AcceptsExactly: bytes of 128 and up are taken as they are, as the reader does; section 8.1 of RFC 8259 wants valid UTF-8.
- Schedule.ScheduleIndependence: assumes that no queue is left with more than 65536 records after a merge; past that the cap retires records that a later push could have matched, which is what the cap is for.
- Schedule.ScheduleIsMerge: the same.
- Schedule.ScheduleIsOptimal: the same.
- Settling.SettledIff: quantifies over schedules that keep every queue within that cap.
- EndToEnd.BestIff: the same.
- EndToEnd.FollowableRunsPairBestIff: the same.
- Correlation.Merge: keys and their differences are unbounded integers, so an overflow of the signed difference of two extreme keys is not modelled.
- CorrelatorClass.Correlator.EmitGroup: keeps the totals and the differences as the whole lists that are recorded; the windows that hold their latest part are modelled in Windows, and the per pass differences of two streams are left out.
- CorrelatorClass.Correlator.Reset: clears those lists; the windows of per pass differences are left out.
- HistogramClass.Histogram.ValueAtQuantile: quantiles are reals, so the rounding of the product with the count is not modelled.
- HistogramClass.Histogram.Record: the running sum is exact, without the rounding of a double; so are those of Merge and Mean.
- Windows.Window.QuantileInterval: the square root is a parameter that is required to be the exact root; quantiles and positions are reals.
- Wilson.WilsonInterval: the square root is a parameter in the same way.
- HistogramClass.SizeFor: the constructor's sizing as a method that returns the layout; the class takes the layout it returns.
- JsonReader.JsonDoc.ParseGroup: stands for ParseObject and ParseArray, which differ only in the brackets and the names; loops that the source writes inline are helper methods.
- ProducerLoop.EventLoop.Run: takes replies as outcomes and leaves out pass names and record flags, as the laws about it do.
- Producer.CreditLaw: the content of replies is reduced to error, empty or passes; pass names, drop counters, flags and the frame time of a record are left out, and the media key is an unbounded integer.
- Framing.LineBuffer.PollLine: the waits are a list of what happens at each, read from a given place on, with the deadline as a flag; connecting, closing and a missing connection are left out.
- Framing.CommandsSurvive: is about the lines alone; Framing.DrainCommands states it for the buffer with its limit.
- Pipeline.Conservation: takes the ring as a queue with refusals as free as stale tails allow; PipelineOnRing.RingConserves states it for the ring protocol and the records delivered.
- Pipeline.StreamAggregator.Pump: takes the verdict on a record's checksum as a flag; the histograms and windows it feeds and the refresh of the pass directory are modelled in their own modules.
- Pipeline.StreamAggregator.ResetStats: clears the counters; the histograms and windows cleared with them are left out.
- Stress.RunConsumer: counts sequence numbers; the checksum test is in Checksum and the exit test in RingTheorems.ExitMissesNothing.
- A claim that per pass statistics never blend two layouts is not made: Pump refreshes once per batch and ignores the layout version of the record.
- CopyRecent, the formatters, ParseEnvironment, argument parsing, the terminal and the dashboard apart from its verdict would add only easy members.
