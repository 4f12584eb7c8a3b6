# Verified model of the latency recording, hashing and scan planning of diskscan

diskscan reads a whole block device, times every read, keeps the times in an HDR histogram and in a latency graph, and
identifies the machine by a SHA-1 hash. This project models the parts of it that decide whether the numbers are right,
and proves what they are for.

**Recording while others sample.** `Phaser` holds the three epoch counters of the writer/reader phaser. `Recorder` is
the interval recorder as a state machine: one event is one atomic operation of one thread, a run is any sequence of
events, so statements over all runs are statements over all interleavings of any number of writers and readers.
`Readers` says exactly when the recording that a sample returns is safe. `IntervalRecorder` is the same recorder as
objects that are updated in place, with the writers' operations woven in between the reader's; each of its methods is
proved to be the corresponding steps of the machine.

**The histogram.** `Buckets` and `Configuration` have the index arithmetic and the choice of a layout. `Samples` says
what the counters stand for, the sorted list of the recorded samples, and compares every answer with that list.
`Merging` has `hdr_add` and corrected recording. `Histogram` has the objects: the histogram and its iterators.

**The serialiser.** `ZigZag` (signed LEB128 in at most nine bytes), `CountsCodec` (runs of zeros as negative tokens),
`HistogramLog` (saving a histogram and restoring it) and `Base64`.

**SHA-1.** `Sha1Spec` is FIPS 180-4, sections 4 to 6.1.2, with an 80-word schedule. `Sha1Transform` is the compression
of `lib/sha1.c`: a sixteen-word circular schedule in the block itself, and five registers that change roles. `Sha1` is
the context with `SHA1_Init`, `SHA1_Update` and `SHA1_Final`. `Sha1Vector` works out the message "abc" on `Sha1Spec`.

**The scan.** `ScanPlan` has the strides, the table of 32-bit offsets and the list of reads they produce,
`ScanCoverage` which bytes of the disk those reads contain, `DiskScan` the objects that perform them and fill the latency
graph, `Median` the selection that the graph's medians come from.

`Bits` defines shifts and bitwise operators on unbounded integers and characterises them.

Code that updates fields, arrays or buffers is a class or a method on arrays, proved against functions on values; the
properties are lemmas about those functions and the machine.

## Where the code does less than is said of it

Each of these is proved as an exact condition, with a concrete case beside it.

- A histogram that is saved is read back only if at least 40 slots lie above the last one in use: the payload
  length in the header counts the 40 bytes of the header, and the decoder takes it as the length of the counts
  (`HistogramLog.SavedHistogramRestores`, `HistogramLog.SmallestDoesNotRestore`).
- After the counters are recomputed, which every decoding does, the maximum is the old one only if values are resolved
  to one unit, or the histogram is empty, or its maximum is not zero (`Samples.RecomputedMax`,
  `Samples.RecomputationRaisesMax`); the minimum is the old one unless every sample is the largest 64-bit integer and
  that integer shares its range, one beyond the first (`Samples.RecomputedMin`, `Samples.RecomputationLowersMin`).
- The manual page says that the entire block device is read. The reads cover it once and in order exactly when the last
  offset of a stride fits in the 32 bits of the table of offsets (`ScanPlan.ScanTiles`). Every byte is read, in
  whatever order and how often, exactly when a read from some entry of the table gets to the end of a stride
  (`ScanCoverage.DiskCovered`); for reads of a power of two bytes that means a disk of at most 4 GiB or of fewer
  sectors than the buckets of the graph hold at 4 GiB each (`ScanCoverage.WholeReadsCover`), with the 70 buckets of the
  command line less than 280 GiB (`ScanCoverage.CommandLineDisks`). Of a disk of 4 TB the byte at 4 GiB is not
  read (`ScanCoverage.LargeDiskHasGaps`); a disk of just under 4 GiB is read, its first block twice
  (`ScanCoverage.CoveredTwice`).
- The array of latencies has one place a sector of the stride. It is large enough exactly when reads have two sectors
  or more, or the scan is one incomplete stride whose offsets fit (`ScanPlan.LatenciesFit`,
  `ScanPlan.SingleSectorsOverflow`).
- `SHA1_Update` counts a piece of 2^29 bytes or more right only if the low half of its count carries anyway
  (`Sha1.CountExact`, `Sha1.CountOfRun`, `Sha1.LongPieceMiscounted`).
- A sample returns the pointer `inactive` as it is after the mutex has been released. Once that has happened the
  recording stays out of the hands of writers until it is returned, whatever they do, exactly when it is settled at
  that point and no other reader may take the mutex in between (`Readers.ReturnIsSafeIff`). With one sampling reader
  that is always so (`Recorder.SampleReturnsQuietRecording`); a run of two readers where it is not is
  `Recorder.OverlappingReadersShareLiveRecording`.

## Model

| member | source | states |
|---|---|---|
| Phaser.WriterReaderPhaser.constructor | hdrhistogram/src/hdr_writer_reader_phaser.c:32-58 | the counters start at 0, 0 and the least 64-bit number, so that the sign of an epoch tells its phase |
| Phaser.WriterReaderPhaser.WriterEnter | hdrhistogram/src/hdr_writer_reader_phaser.c:65-68 | an enter adds one to the start epoch, with 64-bit wrap-around, and returns the new value |
| Phaser.WriterReaderPhaser.WriterExit | hdrhistogram/src/hdr_writer_reader_phaser.c:70-76 | an exit adds one to the end epoch of the phase of its critical value and leaves the others alone |
| Recorder.StepKeepsInv | hdrhistogram/src/hdr_writer_reader_phaser.c:65-134 | every single operation of every thread keeps the invariant: per phase, entries are exits plus writers inside; outside a flip all writers inside are of the current phase; the pointers differ; the writers of the current phase hold the active recording |
| Recorder.EveryRunKeepsInv | hdrhistogram/src/hdr_writer_reader_phaser.c:65-134 | the invariant holds after every run of fewer than 2^63 operations, any number of writers and readers |
| Recorder.ReaderKeepsInv | hdrhistogram/src/hdr_writer_reader_phaser.c:88-135 | so does every operation of the flip: clearing the end epoch of the next phase finds no writer of that phase inside, so no exit is lost, and the exchange turns the current phase into the old one |
| Recorder.FlipIsSafe | hdrhistogram/src/hdr_interval_recorder.c:33-52 | in every run, from the end of a flip to the next swap no writer that is before its exit holds the recording now inactive |
| Recorder.InactiveUntouched | hdrhistogram/src/hdr_interval_recorder.c:37-51 | from the end of a flip to the next lock no operation of any thread changes the inactive recording or which one it is |
| Recorder.SampleReturnsQuietRecording | hdrhistogram/src/hdr_interval_recorder.c:47-51 | with one sampling reader the recording returned after the unlock is held by no writer |
| Recorder.OverlappingReadersShareLiveRecording | hdrhistogram/src/hdr_interval_recorder.c:49-51 | with two readers there is a run after which the recording about to be returned is held by a writer |
| Readers.RunStaysSettled | hdrhistogram/src/hdr_interval_recorder.c:37-51 | while no other reader takes the mutex, no operation of any thread puts the recording about to be returned into the hands of a writer |
| Readers.SecondReaderSpoils | hdrhistogram/src/hdr_interval_recorder.c:37-51 | from every reachable state in which a reader has still to return, another reader that takes the mutex and one writer lead to a recording that is live |
| Readers.ReturnIsSafeIff | hdrhistogram/src/hdr_interval_recorder.c:47-51 | from every reachable state in which a reader has still to return: its recording stays quiet in every continuation exactly when it is settled and no other reader may take the mutex before the return |
| Recorder.ProgressIs | hdrhistogram/src/hdr_interval_recorder.c:19-31 | in every run a writer of the machine is where its own operations alone have brought it: outside, before its load, or updating |
| Recorder.RunAccounts | hdrhistogram/src/hdr_interval_recorder.c:19-52 | at every point of a run with one reader that empties before sampling, the samples of the writes executed, read off the sequence of operations, are those handed out at returns plus what the recordings hold |
| Recorder.SamplesConserveUpdates | hdrhistogram/src/hdr_interval_recorder.c:19-52 | when a sample returns, what was handed out before, the recording handed out now and the active recording together are exactly the writes executed, each once |
| Recorder.WaitStep | hdrhistogram/src/hdr_writer_reader_phaser.c:110-134 | during the wait nobody joins the old phase, each exit of one of its writers shrinks it by one, and a poll ends the wait exactly when it is empty |
| Recorder.WaitEnds | hdrhistogram/src/hdr_writer_reader_phaser.c:110-134 | once every writer of the old phase has finished, with anything else going on in between, the next poll ends the wait |
| IntervalRecorder.IntervalRecorder.UpdateLoad | hdrhistogram/src/hdr_interval_recorder.c:26 | the load of `active` in place is the machine's step |
| IntervalRecorder.IntervalRecorder.UpdateExit | hdrhistogram/src/hdr_interval_recorder.c:30 | the exit in place is the machine's step |
| IntervalRecorder.IntervalRecorder.Swap | hdrhistogram/src/hdr_interval_recorder.c:37-45 | the lock and the three operations that swap the pointers, interleaved with writers, are the machine's run |
| IntervalRecorder.IntervalRecorder.StartFlip | hdrhistogram/src/hdr_writer_reader_phaser.c:93-112 | the flip up to the exchange of the start epoch is the machine's run |
| IntervalRecorder.IntervalRecorder.AwaitDrain | hdrhistogram/src/hdr_writer_reader_phaser.c:114-134 | the polling loop is the machine's run, and stops at the first poll that finds the phase drained |
| IntervalRecorder.IntervalRecorder.Sample | hdrhistogram/src/hdr_interval_recorder.c:33-52 | a whole sample against any interference of writers, also around the unlock and before the read of `inactive`, is a run of the machine; if it returns, no writer holds what it returns; if it has not, a writer of the old phase is still inside |
| Buckets.BucketIndexIs | hdrhistogram/src/hdr_histogram.c:92-96 | the bucket is the number of bits of the value beyond those of bucket 0 |
| Buckets.SlotOfValue | hdrhistogram/src/hdr_histogram.c:92-125 | every value has a bucket and a sub-bucket inside their bounds, and lies in the range they stand for |
| Buckets.ValueAtStrict | hdrhistogram/src/hdr_histogram.c:127-139 | the value of an index is strictly monotone |
| Buckets.ValueAtSlot | hdrhistogram/src/hdr_histogram.c:127-139 | the value at index b * half + s is s * 2^(b + unit magnitude), for every slot and the end of a bucket |
| Buckets.EquivalenceRange | hdrhistogram/src/hdr_histogram.c:149-164 | the lowest equivalent of a value is the value at its index, the next non-equivalent the value at the next index, and the value lies between |
| Buckets.MiddleAndEnd | hdrhistogram/src/hdr_histogram.c:161-169 | the highest equivalent is the last value of the range and the median equivalent its middle |
| Buckets.IndexIffInRange | hdrhistogram/src/hdr_histogram.c:119-164 | the ranges partition the values: an index is the index of a value exactly when the value lies in its range |
| Buckets.IndexOfValueAtIndex | hdrhistogram/src/hdr_histogram.c:119-139 | the index of the value at an index is that index |
| Buckets.IndexMonotone | hdrhistogram/src/hdr_histogram.c:119-125 | the index of a value is monotone |
| Buckets.EquivalentIffSameIndex | hdrhistogram/src/hdr_histogram.c:119-154 | two values have the same lowest equivalent exactly when they have the same index |
| Buckets.TrackableIff | hdrhistogram/src/hdr_histogram.c:372-384 | a value has a slot exactly when it is below (sub_bucket_count << unit_magnitude) * 2^(bucket_count - 1) |
| Samples.AcceptsIff | hdrhistogram/src/hdr_histogram.c:372-384 | exactly the values from 0 to that bound are accepted |
| Buckets.RangePrecision | hdrhistogram/src/hdr_histogram.c:141-147 | a range is one unit wide, or its size times the resolved power of ten is at most the value |
| Configuration.BucketsNeededToCoverValue | hdrhistogram/src/hdr_histogram.c:225-240 | the least number of buckets, at least one, whose range goes beyond the value, also on the exit that avoids overflow |
| Configuration.CalculateBucketConfig | hdrhistogram/src/hdr_histogram.c:250-285 | succeeds exactly for valid arguments; the layout is consistent, resolves the figures with the least number of sub-buckets, and covers the highest value with the least number of buckets |
| Configuration.LayoutUnique | hdrhistogram/src/hdr_histogram.c:250-285 | that determines every field of the layout |
| Configuration.ConfiguredPrecision | hdrhistogram/src/hdr_histogram.c:141-164 | in a configured layout every value lies in a range one unit wide or at most 10^-figures of the value |
| Histogram.Histogram.constructor | hdrhistogram/src/hdr_histogram.c:287-304 | a new histogram is the empty one |
| Histogram.Histogram.Reset | hdrhistogram/src/hdr_histogram.c:344-351 | a reset histogram is the empty one |
| Histogram.Histogram.CountsInc | hdrhistogram/src/hdr_histogram.c:60-66 | one slot and the total grow by the count, no other slot changes |
| Histogram.Histogram.UpdateMinMax | hdrhistogram/src/hdr_histogram.c:68-72 | the minimum follows values other than zero, the maximum all values |
| Histogram.Histogram.RecordValues | hdrhistogram/src/hdr_histogram.c:372-390 | accepts exactly the values with a slot, and then records; otherwise nothing changes |
| Histogram.Histogram.RecordCorrectedValues | hdrhistogram/src/hdr_histogram.c:398-420 | all or nothing: it succeeds exactly when the value itself is accepted |
| Samples.RecordRepresents | hdrhistogram/src/hdr_histogram.c:372-390 | recording keeps the counters those of the sorted list of the samples, for one record |
| Samples.RunRepresents | hdrhistogram/src/hdr_histogram.c:372-390 | and after any run of records |
| Samples.TotalIsSum | hdrhistogram/src/hdr_histogram.c:60-66 | the total kept while recording is the sum of the counts |
| Samples.ExtremesAre | hdrhistogram/src/hdr_histogram.c:474-492 | `hdr_max` is the highest equivalent of the last sample of the sorted list, 0 if that is 0 or there is none; `hdr_min` the lowest equivalent of the first one, apart from the mark for no minimum |
| Histogram.Histogram.ValueAtRank | hdrhistogram/src/hdr_histogram.c:503-516 | the scan finds the first slot where the running sum reaches the rank |
| Samples.RankValueIsSample | hdrhistogram/src/hdr_histogram.c:494-517 | for every rank of every recorded list the answer is the highest equivalent of the sample of that rank |
| Histogram.Histogram.ValueAtPercentile | hdrhistogram/src/hdr_histogram.c:494-517 | the answer is the one of the nearest rank |
| Histogram.RankIsNearest | hdrhistogram/src/hdr_histogram.c:499-502 | the rank computed is the whole number nearest to the percentage of the total, halves upwards, at least 1, percentages above 100 as 100; and only that number is |
| Histogram.RankInRange | hdrhistogram/src/hdr_histogram.c:499-502 | it is between one and the total, and at 100 percent the total |
| Histogram.RankMonotone | hdrhistogram/src/hdr_histogram.c:499-502 | a larger percentage never has a smaller rank |
| Histogram.PercentileRefinesSortedList | hdrhistogram/src/hdr_histogram.c:494-517 | the percentile of a histogram is the highest equivalent of the sample of nearest rank in the sorted list, and 0 when it is empty |
| Histogram.Histogram.ResetInternalCounters | hdrhistogram/src/hdr_histogram.c:181-223 | recomputes total, minimum and maximum from the first and last used slots |
| Samples.RecomputedMax | hdrhistogram/src/hdr_histogram.c:181-223 | the maximum survives exactly when the unit is one, or nothing was recorded, or something other than zero was |
| Samples.RecomputationRaisesMax | hdrhistogram/src/hdr_histogram.c:203-211 | in the layout of hdr_init(2, 40, 1) a histogram of one sample of value 0 has maximum 0, and 1 after recomputation |
| Samples.RecomputedMin | hdrhistogram/src/hdr_histogram.c:181-223 | the total survives; the minimum survives exactly when nothing was recorded, or something in the first slot or below the largest 64-bit integer, which the code uses as its mark for no minimum, or that integer is alone in its range |
| Samples.RecomputedAre | hdrhistogram/src/hdr_histogram.c:203-220 | the maximum becomes the end of the range of the last sample, the minimum the start of the range of the first sample beyond the first slot |
| Samples.RecomputationLowersMin | hdrhistogram/src/hdr_histogram.c:213-220 | in the layout of hdr_init(1, INT64_MAX, 1) a histogram of one sample INT64_MAX has that minimum, and the start of its range after recomputation |
| Histogram.HistIter.AllValuesNext | hdrhistogram/src/hdr_histogram.c:587-681 | the all-values step visits the slots one by one |
| Histogram.HistIter.RecordedNext | hdrhistogram/src/hdr_histogram.c:777-800 | the recorded step goes to the next slot with a count; every slot it passes is empty |
| Histogram.Histogram.Add | hdrhistogram/src/hdr_histogram.c:422-440 | adds every slot of the other histogram once, and returns what was dropped |
| Merging.AddConserves | hdrhistogram/src/hdr_histogram.c:422-440 | whatever the layouts, new total plus dropped is the sum of the two totals |
| Merging.AddSameLayout | hdrhistogram/src/hdr_histogram.c:422-440 | with equal layouts nothing is dropped and the counts are the pointwise sum |
| Merging.AddRepresents | hdrhistogram/src/hdr_histogram.c:422-440 | the result stands for the first list and the samples of the second, each lowered to its lowest equivalent, without those that have no slot, and those are the ones dropped |
| Merging.LoweredAll | hdrhistogram/src/hdr_histogram.c:422-440 | with equal layouts all samples of the second list arrive |
| Merging.CorrectedTotal | hdrhistogram/src/hdr_histogram.c:398-420 | corrected recording adds count * max(1, floor(value / interval)) samples, or none |
| Merging.CorrectedRepresents | hdrhistogram/src/hdr_histogram.c:398-420 | corrected recording stands for the list with `count` more of the value and of every value whole intervals below it that is not below one interval; nothing more when the value is refused |
| Merging.BackfillRepresents | hdrhistogram/src/hdr_histogram.c:410-417 | the samples filled in are the values one, two, ... intervals below, down to one interval |
| ZigZag.UnZigZagOfZigZag | hdrhistogram/src/hdr_encoding.c:12-16 | the bit operations that fold the sign in are undone by those that unfold it, for every 64-bit integer |
| ZigZag.RoundTrip | hdrhistogram/src/hdr_encoding.c:12-154 | decoding an encoded integer, whatever bytes follow, gives it back and consumes exactly its one to nine bytes |
| ZigZag.EncodingIs | hdrhistogram/src/hdr_encoding.c:12-94 | the bytes are the zig-zag number in base 128, lowest digits first, a flag on all but the last, no more of them than needed, the ninth with eight bits |
| ZigZag.DecodingIs | hdrhistogram/src/hdr_encoding.c:96-154 | any bytes, canonical or not, are decoded as the number with these digits, up to the first byte without a flag or the ninth |
| ZigZag.NineAreComplete | hdrhistogram/src/hdr_encoding.c:96-154 | a decoder never looks beyond the ninth byte |
| ZigZag.EncodeInPlace | hdrhistogram/src/hdr_encoding.c:12-94 | the nested tests write exactly the encoding and no other byte |
| ZigZag.DecodeInPlace | hdrhistogram/src/hdr_encoding.c:96-154 | the nested tests compute exactly the decoding |
| CountsCodec.EncodedSize | hdrhistogram/src/hdr_histogram_log.c:238-267 | at most nine bytes a slot |
| CountsCodec.TokensAre | hdrhistogram/src/hdr_histogram_log.c:246-267 | every count other than zero is a token, and every run of zeros as long as it is one token, its length negated |
| CountsCodec.ApplyIs | hdrhistogram/src/hdr_histogram_log.c:348-386 | on any bytes: the numbers that stand in them are written to the slots in turn, up to the limit, the last slot or an overlong run; the status says which, and whether the limit cut the last number off |
| CountsCodec.EncodeCounts | hdrhistogram/src/hdr_histogram_log.c:244-267 | the token loop writes the encoding of the counts and nothing behind it |
| CountsCodec.ApplyToCounts | hdrhistogram/src/hdr_histogram_log.c:348-386 | on arbitrary bytes the decoder terminates, stays in the counts, reads at most eight bytes beyond its limit and yields the result and status of its specification |
| CountsCodec.CountsRoundTrip | hdrhistogram/src/hdr_histogram_log.c:244-386 | decoding exactly the encoder's bytes into a cleared array of the same length restores every count |
| CountsCodec.PayloadDecodes | hdrhistogram/src/hdr_histogram_log.c:646-676 | decoded with the length in the header, the counts are restored too, and the status is a success exactly when 40 slots are left over |
| HistogramLog.EncodeCompressed | hdrhistogram/src/hdr_histogram_log.c:226-277 | the bytes are the encoding of the slots up to the one whose range the maximum is in, the header has the layout and their length plus 40, and a cookie that the decoder accepts |
| HistogramLog.DecodeCompressedV2 | hdrhistogram/src/hdr_histogram_log.c:640-702 | refuses another cookie and invalid arguments; otherwise the outcome of the specification for the one layout of the header; on success a new histogram with recomputed counters, or the given one with all slots added; on failure the given one unchanged |
| HistogramLog.CountsStayNatural | hdrhistogram/src/hdr_histogram_log.c:354-374 | no count that is read from any bytes is negative |
| HistogramLog.SaveThenRestore | hdrhistogram/src/hdr_histogram_log.c:226-702 | a recorded histogram saved and restored by the two procedures has its layout and all its counts, exactly when 40 slots lie above the last one in use, and is refused otherwise |
| HistogramLog.LimitCovers | hdrhistogram/src/hdr_histogram_log.c:235-236 | no slot beyond the one of the maximum is in use |
| HistogramLog.LimitIsAt | hdrhistogram/src/hdr_histogram_log.c:235-236 | the limit is the number of slots up to the one whose range the maximum is in |
| HistogramLog.LimitIsUsed | hdrhistogram/src/hdr_histogram_log.c:235-236 | for a recorded histogram that is up to the last slot in use |
| HistogramLog.CookieIs | hdrhistogram/src/hdr_histogram_log.c:127-130 | a cookie passes exactly when it is that of version 2 with any second nibble |
| HistogramLog.OutcomeIs | hdrhistogram/src/hdr_histogram_log.c:666-680 | more bytes than announced fail; otherwise the decoder gets the bytes followed by zeros |
| HistogramLog.SavedHistogramRestores | hdrhistogram/src/hdr_histogram_log.c:226-386 | for every run of records, saving and restoring gives the counts back, and succeeds exactly when 40 slots lie above the last one in use |
| HistogramLog.RestoredAnswers | hdrhistogram/src/hdr_histogram_log.c:676-705 | the restored histogram has the same counts and total, and the same minimum and maximum exactly under the conditions of recomputation |
| HistogramLog.SmallestDoesNotRestore | hdrhistogram/src/hdr_histogram_log.c:269-272 | an empty histogram in the layout of hdr_init(1, 20, 1) cannot be read back |
| Base64.FromDigit | hdrhistogram/src/hdr_encoding.c:156-199 | the alphabet and its inverse |
| Base64.Alphabet | hdrhistogram/src/hdr_encoding.c:156-164 | the alphabet is that of table 1 of RFC 4648 |
| Base64.NoDigit | hdrhistogram/src/hdr_encoding.c:166-199 | the padding counts as zero and every other character outside the alphabet as 22 |
| Base64.BlockIsNumber | hdrhistogram/src/hdr_encoding.c:211-252 | the digits of a block are those of its bytes as one number, with `=` for what is missing |
| Base64.UnblockIsNumber | hdrhistogram/src/hdr_encoding.c:281-293 | four characters become the three bytes of the same number |
| Base64.EncodedSize | hdrhistogram/src/hdr_encoding.c:201-204 | four characters for every three bytes begun |
| Base64.RoundTrip | hdrhistogram/src/hdr_encoding.c:211-313 | decoding an encoded string gives it back followed by (3 - n % 3) % 3 zero bytes |
| Base64.EncodeBlock | hdrhistogram/src/hdr_encoding.c:244-252 | the characters cut out of the 24-bit number are the sextets of the three bytes |
| Base64.EncodeBlockPad | hdrhistogram/src/hdr_encoding.c:211-239 | one or two bytes, padded with equals signs |
| Base64.EncodeInPlace | hdrhistogram/src/hdr_encoding.c:254-276 | refuses every other output length, and otherwise writes the encoding |
| Base64.DecodeBlock | hdrhistogram/src/hdr_encoding.c:281-293 | the bits put together with shifts and `or` are the three bytes of the four sextets |
| Base64.DecodeInPlace | hdrhistogram/src/hdr_encoding.c:295-313 | refuses exactly by the lengths, and otherwise writes the decoding |
| Base64.EncodeThenDecode | hdrhistogram/src/hdr_encoding.c:254-313 | both procedures on buffers of the lengths they ask for: every non-empty byte string comes back; the empty one is refused |
| Sha1Transform.SwapReverses | lib/sha1.c:93-102 | the rotations and masks of `blk0` turn a word around |
| Sha1Transform.ExpandedWord | lib/sha1.c:104-105 | the four places that `blk` reads hold the words 3, 8, 14 and 16 back, so that it computes the next word of the 80-word schedule |
| Sha1Transform.WindowMoves | lib/sha1.c:104-105 | writing it in its place keeps the block the window of the last sixteen words |
| Sha1Transform.R0 | lib/sha1.c:108 | two registers are written, five roles rotate, and the result is one round of the standard |
| Sha1Transform.R1 | lib/sha1.c:109 | the same on an expanded word |
| Sha1Transform.R2 | lib/sha1.c:110 | the same with parity |
| Sha1Transform.R3 | lib/sha1.c:111 | the same with majority |
| Sha1Transform.R4 | lib/sha1.c:112 | the same with parity and the last constant |
| Sha1Transform.FirstTwenty | lib/sha1.c:154-158 | rounds 0 to 19 with the roles of the registers written out |
| Sha1Transform.SecondTwenty | lib/sha1.c:159-163 | rounds 20 to 39 |
| Sha1Transform.ThirdTwenty | lib/sha1.c:164-168 | rounds 40 to 59 |
| Sha1Transform.FourthTwenty | lib/sha1.c:169-173 | rounds 60 to 79 |
| Sha1Transform.Transform | lib/sha1.c:129-184 | for every state and block the state becomes the standard's hash value; the block is left holding words 64 to 79 of its schedule, and nothing around it changes |
| Sha1.CountExact | lib/sha1.c:209-211 | the pair of halves is the number of bits exactly when the piece has less than 2^29 bytes or the low half carries anyway |
| Sha1.LongPieceMiscounted | lib/sha1.c:210-211 | 2^29 bytes in one piece are counted as 2^33 bits |
| Sha1.CountOfRun | lib/sha1.c:209-211 | after any run of updates the pair is the number of bits plus 2^32 for every carry that was not due, modulo 2^64 |
| Sha1.ShortPieces | lib/sha1.c:209-211 | pieces of less than 2^29 bytes are counted right, whatever their number |
| Sha1.HashBlocks | lib/sha1.c:215-217 | the loop absorbs the complete blocks of a piece |
| Sha1.Context.constructor | lib/sha1.c:188-197 | the initial hash value, and no message yet |
| Sha1.Context.Update | lib/sha1.c:201-226 | after any split of a message into pieces, of any length, the state is the fold of the compression over its complete blocks, the buffer holds the rest and the low count its bits; it says which bytes of the piece are overwritten |
| Sha1.ZeroStop | lib/sha1.c:240-242 | the loop of zeros stops after exactly the number of zeros that the standard asks for |
| Sha1.CountBytes | lib/sha1.c:235-238 | the eight bytes are the 64-bit number, the most significant first |
| Sha1.Context.Pad | lib/sha1.c:235-243 | the message becomes the padded message of section 5.1.1 with the count as its length |
| Sha1.Context.Final | lib/sha1.c:230-259 | the digest is that of FIPS 180-4 for every message of less than 2^64 bits in pieces whose carries were due; the context is wiped |
| Sha1.HashOf | lib/system_id.c:14-21 | the three calls on one message give the standard's digest below 2^29 bytes, and above it a digest with a length field too large by 2^32 |
| Sha1Vector.AbcDigest | lib/sha1.c:69-72 | the standard's function, as it is written down here, hashes "abc" to the first test vector of the source |
| Median.KthSmallest | include/median.h:36-58 | for every array and rank: it terminates inside the array, leaves a permutation of the first n values, smaller ones before the rank and larger ones behind, and returns the value of that rank |
| Median.KthOfSorted | include/median.h:36-58 | the value of rank k is the one at index k of the sorted values |
| Median.Median | include/median.h:60 | the macro yields the lower median |
| Median.MedianHalves | include/median.h:60 | fewer than half of the values are below it and at most half above |
| ScanPlan.AdjustedIsWhole | lib/diskscan.c:712-717 | the size of a read becomes a positive multiple of the sector size |
| ScanPlan.StrideIsLeast | lib/diskscan.c:566-574 | the stride is the least number of sectors of which one for every bucket is more than the disk has, and only that number is |
| ScanPlan.StridesAre | lib/diskscan.c:752-764 | there are just as many strides as cover the disk |
| ScanPlan.ReadsStartInside | lib/diskscan.c:652-667 | the reads of a stride start inside it, so that a latency belongs to the bucket of its sectors |
| ScanPlan.Facts | lib/diskscan.c:566-587 | strides are long enough for the graph to cover the disk, and the table long enough for a stride |
| DiskScan.CalcScanOrderSeq | lib/diskscan.c:576-587 | the offsets of the table, cut to 32 bits, and one sentinel at its end |
| DiskScan.EntryStored | lib/diskscan.c:582-584 | no offset is mistaken for the sentinel |
| ScanPlan.StrideTiles | lib/diskscan.c:645-670 | with offsets that fit, the reads of a stride follow each other from its start to its end or the end of the disk, none larger than the buffer |
| ScanPlan.ScanTiles | lib/diskscan.c:645-764 | the reads of a scan tile the disk, every byte once and in order, exactly when the last offset fits in 32 bits |
| ScanCoverage.DiskCovered | lib/diskscan.c:645-764 | every byte of the disk is in some read exactly when a read from some entry of the table gets to the end of a stride, or of the disk if it is shorter |
| ScanCoverage.NotRead | lib/diskscan.c:645-764 | a byte of the first stride that no entry plus a read gets to is in no read of the whole scan |
| ScanCoverage.ReachBounds | lib/diskscan.c:576-587 | a table that fits reaches, and any table in strides of at most 4 GiB; none does in strides longer than 4 GiB by a read |
| ScanCoverage.WholeReadsCover | lib/diskscan.c:566-587 | for reads of a power of two bytes every byte is read exactly when the disk has at most 4 GiB or fewer sectors than the buckets hold at 4 GiB each; otherwise the byte at 4 GiB is not |
| ScanCoverage.CommandLineDisks | cli/cli.c:329 | with 70 buckets, 512-byte sectors and reads of 64 KiB every byte is read exactly on disks of less than 280 GiB |
| ScanCoverage.LargeDiskHasGaps | lib/diskscan.c:576-587 | a disk of 4 TB whose byte at 4 GiB is not read |
| ScanCoverage.CoveredTwice | lib/diskscan.c:576-587 | a disk all of whose bytes are read, some of them twice |
| ScanPlan.BucketsSuffice | lib/diskscan.c:414 | there are never more strides than buckets, so the assertion holds |
| ScanPlan.LatenciesBounds | lib/diskscan.c:652-667 | every stride has at least one latency, so that its median exists |
| ScanPlan.LatenciesFit | lib/diskscan.c:439-450 | the array of latencies is large enough for every stride exactly under the condition on the size of reads |
| ScanPlan.SingleSectorsOverflow | lib/diskscan.c:741 | a disk and a read size for which it is not |
| DiskScan.Scan.LatencyBucketPrepare | lib/diskscan.c:412-423 | an open bucket without latencies; other buckets unchanged |
| DiskScan.Scan.LatencyBucketAdd | lib/diskscan.c:439-450 | minimum, maximum and the array take in one more latency |
| DiskScan.Scan.LatencyBucketFinish | lib/diskscan.c:425-437 | the bucket holds the sectors, minimum, maximum and lower median of its latencies |
| DiskScan.Scan.ScanLatencyStride | lib/diskscan.c:645-670 | performs exactly the reads of the stride, in order, and collects their latencies |
| DiskScan.Scan.DiskScan | lib/diskscan.c:699-764 | performs exactly the reads of the scan; one bucket a stride, each summarising as many latencies as its stride has reads; every latency is in one bucket, in order; the disk is covered once and in order exactly when the offsets fit, and covered at all exactly when some entry reaches the end of a stride |

## Left out

- zlib: compression is taken as the identity on the bytes; the outer header with its cookie and length, and byte order.
- HistogramLog.DecodeCompressedV2: the inflation of the header itself, and its index offset and conversion ratio; the
  announced length is not negative, and layouts whose first bucket ends beyond 64 bits are not asked for.
- The older encodings V0 and V1 of the log format, which copy fields of fixed width, and the text of the log.
- Floating point: `log`, `ceil`, `floor` and `pow` in the bucket configuration are exact integer logarithms, the
  percentage is a real number; mean, deviation, the percentile, linear and logarithmic iterators and printing.
- Histogram.RankIsNearest: the percentage is an exact real number, where the code rounds to a double.
- Histogram.RankInRange: the same.
- Histogram.Histogram.ValueAtPercentile: the same; from the rank on nothing is rounded.
- Histogram.PercentileRefinesSortedList: the same.
- `hdr_add_while_correcting_for_coordinated_omission`: the loop of `hdr_add` around corrected recording.
- `normalizing_index_offset` is 0, the only value that initialisation gives it; the conversion ratio is not modelled.
- Counters that overflow 64 bits: counts and totals are unbounded, runs of the recorder have fewer than 2^63
  operations, and the top of a bucket range is not reduced to 64 bits.
- Histogram.Histogram.Add: the source of a merge has counts that are not negative and a total that is their sum, which
  is what recording leaves.
- The phaser's mutex internals, `sched_yield`, `usleep` and memory orders weaker than sequential consistency.
- Recorder.RunAccounts: one sampling reader that empties the inactive recording before each sample, as its callers do.
- Recorder.SamplesConserveUpdates: the same.
- Readers.ReturnIsSafeIff: the run before has fewer than about 2^63 / 3 operations.
- Recorder.WaitEnds: that the writers of the old phase finish is an assumption about the scheduler.
- Sha1.Context.Update: pieces that do not fit a 64-bit count of bits, and pieces that overlap the context's buffer.
- The big-endian and the `SHA1HANDSOFF` variants of `lib/sha1.c`, and the hexadecimal text that `lib/system_id.c` makes.
- DiskScan.Scan.DiskScan: no interruption, no fatal error, latencies of less than 2^32 milliseconds, a table with fewer
  than 2^32 entries, and read sizes for which the array of latencies is large enough.
- ScanPlan.Sane: disks of less than 2^62 bytes, a latency graph with at least one bucket and reads of less than 2^31
  bytes are preconditions of everything about the scan.
- The random order of a scan, which may move the sentinel into the middle of the table.
- `disk_scan_part` beyond the call of `latency_bucket_add`: rewriting of bad sectors, logging, error counts, and the
  histogram of the scan.
- Progress reports, conclusions, temperature and SMART monitoring, device access, the command line, the JSON output,
  and libscsicmd.
