# Verified models of airplay2-rs

A Dafny 4.11 model of the parts of this AirPlay sender and receiver whose
correctness spans whole runs, with proofs about every input, every run or every
interleaving. `dafny verify dfyconfig.toml` checks all of it.

| files | component |
|---|---|
| `SpscRing.dfy`, `RingBuffer.dfy` | the lock-free audio ring: as two interleaved threads, and as an object one thread uses |
| `PcmStream.dfy`, `PcmPadding.dfy`, `PcmStreamer.dfy` | the PCM streamer: source to ring to packets |
| `Jitter.dfy`, `JitterRuns.dfy`, `JitterWrap.dfy`, `JitterFlush.dfy`, `Underrun.dfy`, `JitterBuffer.dfy` | the RTP jitter buffer (16-bit numbers as in section 5.1 of RFC 3550) and the output callback that drains it |
| `SequenceTracker.dfy` | packet-loss accounting |
| `HapSession.dfy`, `HapWire.dfy`, `HapCalls.dfy` | the encrypted control channel, the loop that takes its blocks out of TCP reads, any stream at all, and one call after another |
| `HeaderReader.dfy` | the reader of pairing responses |
| `Sessions.dfy`, `SessionCauses.dfy` | the receiver's session manager as interleaved locked phases |
| `Queue.dfy`, `QueueEdits.dfy`, `QueueRuns.dfy`, `QueueBack.dfy`, `PlaybackQueue.dfy` | the playback queue with shuffle and history |
| `Groups.dfy`, `GroupEffects.dfy` | multi-room groups and leader election |
| `Discovery.dfy` | the mDNS browser's table and the scan that rebuilds it from events |
| `NumberTheory.dfy`, `CrtSignature.dfy` | the RSA signature with the Chinese remainder theorem (step 2.b of section 5.2.1 of RFC 8017) |
| `Common.dfy` | options, byte sequences, remainders |

Each stateful component is a value type with one function per operation, lemmas
over its runs, and a class whose methods follow the source statement by statement
and are proved to make exactly the state change the function describes.

## How things are modelled

- Shared memory is sequentially consistent at the granularity of one atomic
  load or store or one copied byte. `CopiesNeverOverlap` shows that the two
  threads never touch the same byte at once, which is what acquire/release
  ordering needs to give this view.
- Randomness, clocks, sockets and the audio source are parameters: the shuffled
  arrangement, the time of a prune, the reads a TCP stream is cut into, the
  unlimited script of a source's answers.
- The cipher is a pair of functions assumed to invert each other
  (`HapSession.Ideal`); section 2.8 of RFC 8439 gives the tag length. One result
  also assumes that what opens is as long as its ciphertext (`HapCalls.KeepsLength`),
  and the results about forged streams that nothing opens but what sealing yields
  (`HapSession.Authentic`), which holds of a cipher that recomputes the tag.
  The 64-bit block counter wraps, as it does in a release build.
- Session ids, group ids and queue item ids are new when they are created. A ring
  of capacity 0 can be built; the arithmetic of its other methods has no meaning,
  and they ask for at least 1.
- A phase of the session manager under its lock is one step, except that the second
  phase of a start sends two events under one lock: others can announce in between.
- A call of `previous` that panics is a step like any other, with the state it leaves
  behind: the queue sits in a lock that a panic does not poison.
- The RTSP parser that decrypted text is fed to may end a call after any read;
  the deframing results hold after every read.

## Where the code falls short of the obvious property

Each line has the exact condition, proved in both directions, and most a concrete input.

- The fast signature is wrong when a prime divides the message while that prime
  less one divides the exponent: `SignCorrectIff`, `DegenerateExample`.
- A pop can pass over a buffered packet when the numbers wrap, because "the next
  available packet" is the lowest key: `PassesOverIff`, `AheadThroughoutIff`,
  `PassedOverExample`.
- For the same reason "drop oldest packet" (src/audio/jitter.rs:162) drops a newer one
  when some but not all buffered numbers have wrapped past the play point, or, before
  playback, when they wrap at all: `DropsOldestPlayingIff`, `DropsOldestBeforeIff`,
  `DropsNewerExample`.
- A jitter buffer configured with depth 0 counts a packet it keeps as dropped and
  overfills: `JitterRuns.ConservationIff`. No packet is lost track of even then:
  `NoPacketVanishes`.
- An underrun is documented as rebuffering (src/audio/jitter.rs:45), but packets are
  handed out during it, for every minimum depth from 2 that playback can start with:
  `UnderrunHoldsBackIff`, `UnderrunExample`.
- A pop on an empty buffer moves the play point too, so packets that come up to 32768
  pops late are refused, and a stream that goes on at one packet a pop is silent for
  good: `RefusedAfterPopsIff`, `GapSilencesStream`.
- The depth in the statistics is not updated by flushes and pruning, and is right
  throughout exactly unless one of them takes something out: `DepthToldThroughoutIff`.
- The header limit is only looked at after a search, so responses depend on
  fragmentation exactly when the headers end beyond byte 4097:
  `FragmentationIndependentIff`.
- The buffer of undecrypted bytes lives for one request. Two requests do what one
  would exactly when the reads of the first end where a block ends:
  `SecondCallResumesIff`. Otherwise nothing that arrives later makes up for it:
  `LeftoverNeverRecovered`, `LeftoverLostExample`.
- The streamer drops bytes when a full read does not fit above the high watermark:
  `PcmStream.ConservationIff`.
- Received plus lost falls short of the distance covered as soon as one packet is
  1000 or more ahead: `LossAccountsForSpanIff`.
- Subscribers can see two sessions open at once even under Reject, exactly when a
  session is put in place before an earlier one's end is announced:
  `SecondOpenIff`, `OneOpenThroughoutIff`, `OverlapExample`.
- Shuffling without a current track never plays the tracks of the order up to the
  position left over from before: `ShuffleWithoutCurrentSkips`.
- Removing a track already reached makes the next one unreachable, since the
  shuffle position is not adjusted: `RemoveKeepsUpNextIff`, `RemoveSkipsExample`.
- For the same reason `previous` can index past the order and panic. That needs a
  removal while the position is as large as the queue, and in shuffle mode such a
  removal is enough: `StaysInRangeIff`, `RemovalCausesPanicIff`, `PreviousPanicExample`.
- `upcoming` panics on a shuffled queue whose position is not inside its order, such as
  an empty one: `UpcomingIff`, `UpcomingPanicExample`.
- A track added to be played next goes last in a shuffle order, and is played next
  exactly when the last track of the order is playing, or, not shuffled, any track is:
  `AddNextPlaysNextIff`, `AddNextLastExample`.
- Going back more than 100 tracks in shuffle mode does not retrace, but for one
  coincidence at 101: `ShuffledRetraceIff`. Not shuffled it does: `UnshuffledRetraces`.
- In shuffle mode an advance undoes a step back only if the track left is at the place
  of the order it goes to. After a step through the history it is not, if the position
  was at the track left:
  `AdvanceReturnsIff`, `AdvanceUndoesPreviousIff`, `NotUndoneExample`.
- A service that resolves to a new id can leave its old device known with nothing
  announcing it: `AnnouncedThroughoutIff`, `UnannouncedExample`.
- The removal of a service is announced for a device never announced, exactly when the
  name was the last of an id that is not known: `NoneSpuriousIff`, `SpuriousExample`.

## Model

| member | source | states |
|---|---|---|
| SpscRing.NothingLostOrReordered | src/audio/buffer.rs:66-211 | for every interleaving of one producer's and one consumer's steps, the bytes consumed followed by the bytes in the ring are the bytes accepted, in order, and at most capacity - 1 bytes are held |
| SpscRing.StepRefinesQueue | src/audio/buffer.rs:109-211 | every atomic step is one step of an unbounded queue, or no step of it |
| SpscRing.PublishAppends | src/audio/buffer.rs:137-140 | the store that ends a write appends exactly the bytes it was sized for, though reads went on meanwhile |
| SpscRing.FinishDequeues | src/audio/buffer.rs:146-211 | a read or peek has copied exactly the oldest bytes, and the store that ends a read or skip removes exactly those |
| SpscRing.InternalStutters | src/audio/buffer.rs:109-211 | loads and byte copies change nothing a reader could see |
| SpscRing.CopiesNeverOverlap | src/audio/buffer.rs:119-135 | in every reachable state the slots a write fills are outside the readable region and the slots a read copies are inside it |
| SpscRing.SizesAreExact | src/audio/buffer.rs:110-111 | a write is sized to all the space left at its load of the read position; a read to all that was published at its load of the write position |
| SpscRing.ReadFindsAll | src/audio/buffer.rs:146-148 | a read or peek is sized to everything published when it began, or to what it asked for, whatever the producer does meanwhile |
| SpscRing.CallsNeverBlock | src/audio/buffer.rs:109-211 | a started call can always take its next step, whatever the other thread does |
| SpscRing.LevelIsDistance | src/audio/buffer.rs:66-75 | the two-branch fill formula recovers the true distance between unwrapped positions |
| SpscRing.SlotIsOffset | src/audio/buffer.rs:126-135 | the split copy visits consecutive slots modulo the capacity |
| RingBuffer.WindowIsContents | src/audio/buffer.rs:66-75 | the one-thread and two-thread models see the same bytes between the two positions |
| RingBuffer.WriteAppends | src/audio/buffer.rs:126-138 | the two-part copy and the new write position append to what is readable |
| RingBuffer.WindowDrop | src/audio/buffer.rs:169-170 | moving the read position drops exactly the oldest bytes |
| RingBuffer.AudioRingBuffer.constructor | src/audio/buffer.rs:31-40 | both positions at 0 and watermarks at three and one quarters for any capacity; an empty ring from capacity 1 on |
| RingBuffer.AudioRingBuffer.Available | src/audio/buffer.rs:66-75 | the number of unread bytes |
| RingBuffer.AudioRingBuffer.Free | src/audio/buffer.rs:78-80 | one less than the capacity, minus the unread bytes |
| RingBuffer.AudioRingBuffer.IsUnderrunning | src/audio/buffer.rs:93-95 | fewer unread bytes than a quarter of the capacity |
| RingBuffer.AudioRingBuffer.IsReady | src/audio/buffer.rs:98-100 | at least three quarters of the capacity unread |
| RingBuffer.AudioRingBuffer.Write | src/audio/buffer.rs:109-141 | appends the longest prefix of the input that fits and returns its length |
| RingBuffer.AudioRingBuffer.Peek | src/audio/buffer.rs:176-199 | copies the oldest bytes, leaves the rest of the output and the ring alone |
| RingBuffer.AudioRingBuffer.Read | src/audio/buffer.rs:146-173 | copies the oldest bytes out and removes them |
| RingBuffer.AudioRingBuffer.Skip | src/audio/buffer.rs:202-211 | removes the oldest bytes |
| RingBuffer.AudioRingBuffer.Clear | src/audio/buffer.rs:214-217 | empties the ring |
| PcmStream.ConservationIff | src/streaming/pcm.rs:221-256 | for all sources and all runs the audio in the packets followed by the ring is what the source gave, exactly when a quarter of the capacity, rounded up, holds a four-packet read |
| PcmStream.RunConserves | src/streaming/pcm.rs:322-485 | the same along every run, with silent padding only, and on Finished every byte the source gave is in a packet |
| PcmStream.EnoughFrames | src/streaming/pcm.rs:139-141 | 5632 buffer frames of any size are enough |
| PcmPadding.RoomyFramesIff | src/streaming/pcm.rs:128-141 | the exact number of buffer frames that is enough for each frame size, from 352 frames a packet |
| PcmStream.CrampedLoses | src/streaming/pcm.rs:231-252 | every smaller buffer has a source whose bytes it drops |
| PcmStream.FillConserves | src/streaming/pcm.rs:231-252 | the initial fill loses nothing when there is room |
| PcmStream.TickConserves | src/streaming/pcm.rs:325-485 | one audio tick conserves bytes, and finishes only with an empty ring |
| PcmPadding.FillStops | src/streaming/pcm.rs:231-252 | the initial fill stops at three quarters of the capacity, an empty read or a failed one, whichever is first, and reads no further |
| PcmPadding.TickOutcomes | src/streaming/pcm.rs:325-485 | when a tick ends in each of its four outcomes, and that it forms one packet in two of them |
| PcmPadding.TickReads | src/streaming/pcm.rs:477-484 | after a successful send the source is asked once more exactly below a quarter of the capacity |
| PcmPadding.LoopGoesOn | src/streaming/pcm.rs:322-485 | the loop forms one packet a tick and stops at the first outcome that is not a success |
| PcmPadding.PaddedOnlyAfterShortRead | src/streaming/pcm.rs:325-485 | along every run in which all reads give at least a packet, every packet is full and the stream goes on |
| PcmPadding.UnpaddedIff | src/streaming/pcm.rs:325-485 | no run pads a packet, for all sources that give at least m bytes a read, exactly when m is a packet or a packet is one byte |
| PcmStreamer.PcmStreamer.constructor | src/streaming/pcm.rs:132-162 | ring and packet sizes from the frame counts, nothing sent; usable from one buffer frame on |
| PcmStreamer.PcmStreamer.FillBuffer | src/streaming/pcm.rs:221-256 | terminates for every source, since each pass stores a byte, and fills as the byte-flow function says |
| PcmStreamer.PcmStreamer.AudioTick | src/streaming/pcm.rs:325-485 | one tick over the real ring does what the byte-flow function says, with all four outcomes |
| PcmStreamer.PcmStreamer.RecordPacket | src/streaming/pcm.rs:356-359 | the packet is the bytes read, padded with zeros to the packet size |
| PcmStreamer.PcmStreamer.RefillIfLow | src/streaming/pcm.rs:477-484 | one more read below the low watermark, failures ignored |
| PcmStreamer.PutGrows | src/streaming/pcm.rs:231-245 | below the high watermark a non-empty read stores at least one byte |
| Serial.AheadIsDifference | src/audio/jitter.rs:150 | the branch form of the distance is the 16-bit wrapping subtraction |
| Jitter.StartIsEarliestIff | src/audio/jitter.rs:232-267 | the largest-gap scan returns a number that every buffered one is at or ahead of, across a wrap too, exactly when they fit in a circular window shorter than 32768 |
| Jitter.GapUnique | src/audio/jitter.rs:245-251 | a gap wider than half the number space is the one the scan reports |
| Jitter.LargestGapIsMax | src/audio/jitter.rs:245-251 | the scan reports the largest difference between neighbours |
| JitterRuns.ConservationIff | src/audio/jitter.rs:138-229 | in every run each packet received is played, late, dropped on overflow, buffered, replaced or discarded, as multisets of packets, the counters agree and the depth stays within its limit, exactly when that limit is at least 1 |
| JitterRuns.RunBalances | src/audio/jitter.rs:138-353 | the same kept by inserts, pops, flushes and pruning alike from any balanced state |
| JitterRuns.NoPacketVanishes | src/audio/jitter.rs:138-353 | whatever the configuration, the packets received are those played, refused, dropped, replaced, discarded and buffered, none twice and none missing |
| JitterRuns.CountsAddUp | src/audio/jitter.rs:138-353 | hence received = played + late + overflow + buffered + replaced + discarded in numbers |
| JitterFlush.StatsCount | src/audio/jitter.rs:171-296 | over every run the concealed, underrun and maximum-depth figures are the pops that missed, the times it ran dry and the deepest it was |
| JitterFlush.DepthToldThroughoutIff | src/audio/jitter.rs:299 | the reported depth is right throughout a run exactly unless a flush or prune takes something out |
| JitterFlush.SurvivesIff | src/audio/jitter.rs:327-353 | exactly which packets a flush, a flush from a timestamp and a prune spare |
| JitterFlush.PlayPointAfterDiscard | src/audio/jitter.rs:327-353 | which of them give up the play point |
| JitterFlush.DiscardedNeverComesOut | src/audio/jitter.rs:327-353 | over every later run, of a packet not spared no copy is handed out that was not received since |
| JitterFlush.FlushSilences | src/audio/jitter.rs:327-332 | nothing received before a flush is handed out after it, in any run |
| JitterRuns.DepthZeroMiscounts | src/audio/jitter.rs:160-168 | with depth 0 the first packet is counted as dropped although it is buffered |
| JitterRuns.BufferingMeansNoPlayPoint | src/audio/jitter.rs:270-300 | in every run the state is Buffering exactly when there is no play point |
| JitterRuns.Transitions | src/audio/jitter.rs:270-300 | exactly when the three-state machine moves, for every operation |
| JitterRuns.PopYieldsIff | src/audio/jitter.rs:180-229 | exactly when a pop hands out a packet |
| Underrun.UnderrunHoldsBackIff | src/audio/jitter.rs:180-300 | in every run no packet is handed out in the Underrun state, exactly when the minimum depth is at most 1 or more than the buffer or the number space can hold |
| Underrun.YieldsInUnderrun | src/audio/jitter.rs:270-300 | for every other configuration, a reachable underrun in which a pop hands out the one packet buffered |
| Underrun.UnderrunExample | src/audio/jitter.rs:180-300 | minimum depth 2: packets 0 and 1 in and out, then packet 2 comes out during the underrun |
| Underrun.RefusedAfterPopsIff | src/audio/jitter.rs:144-156 | which packets are late after any number of pops on an empty buffer |
| Underrun.GapSilencesStream | src/audio/jitter.rs:180-229 | a stream going on where it stopped, one packet a pop, is played in full after no such pop and refused in full, however long, after 1 to 32768 |
| JitterRuns.PopAdvances | src/audio/jitter.rs:180-229 | outside Buffering a pop moves the play point 1 to 10 places, and a packet it returns sits just before the new point and is no longer buffered |
| JitterRuns.OutputStrictlyIncreasing | src/audio/jitter.rs:180-229 | between resets packets come out in strictly increasing unwrapped order in every run |
| JitterRuns.PassesOverIff | src/audio/jitter.rs:199-224 | a pop passes over a buffered packet exactly when the lowest key is near only by wrapping while a higher key than the play point is buffered |
| JitterWrap.PassedOverExample | src/audio/jitter.rs:203-217 | from a new buffer: 65533 and 65535 in, one pop, 0 in, and the next pop hands out 0 and passes over 65535 |
| JitterRuns.PopKeepsAheadIff | src/audio/jitter.rs:180-229 | a pop keeps everything buffered at or ahead of the play point exactly outside that situation |
| JitterRuns.PopTakesNearest | src/audio/jitter.rs:180-229 | otherwise the packet returned is the nearest one ahead |
| JitterRuns.SafeRunKeepsAhead | src/audio/jitter.rs:138-229 | over whole runs that avoid it and start from one window, nothing buffered falls behind |
| JitterRuns.AheadThroughoutIff | src/audio/jitter.rs:138-229 | nothing buffered falls behind throughout a run exactly when no pop meets the wrap situation and playback only starts from one window |
| JitterWrap.DropsOldestPlayingIff | src/audio/jitter.rs:160-167 | during playback a full buffer drops its first packet in playing order exactly when no buffered number has wrapped past the play point or all have |
| JitterWrap.DropsOldestBeforeIff | src/audio/jitter.rs:160-167 | before playback, for numbers in one window, exactly when they do not wrap |
| JitterWrap.DropsNewerExample | src/audio/jitter.rs:160-167 | from a new buffer of depth 2: 65535 and 0 in, then 1 in drops 0 and keeps 65535 |
| JitterWrap.NoWrapDropsOldest | src/audio/jitter.rs:138-177 | in runs whose numbers stay in one non-wrapping stretch every drop is of the oldest packet |
| JitterRuns.NothingPassedOver | src/audio/jitter.rs:138-229 | in runs whose numbers stay in one non-wrapping stretch under 32768 wide no buffered packet is passed over |
| JitterRuns.NothingPassedOverFromStart | src/audio/jitter.rs:126-135 | the same from a new buffer |
| JitterBuffer.JitterBuffer.constructor | src/audio/jitter.rs:126-135 | an empty buffer in the Buffering state |
| JitterBuffer.JitterBuffer.DetermineStartSequence | src/audio/jitter.rs:232-267 | the loop returns the scan's answer, and the earliest number whenever there is a window |
| JitterBuffer.JitterBuffer.UpdateState | src/audio/jitter.rs:270-300 | the in-place state update |
| JitterBuffer.JitterBuffer.Insert | src/audio/jitter.rs:138-177 | the in-place insertion, late and overflow cases included |
| JitterBuffer.JitterBuffer.Pop | src/audio/jitter.rs:180-196 | the in-place pop and its result |
| JitterBuffer.JitterBuffer.HandleMissingPacket | src/audio/jitter.rs:199-229 | the in-place handling of a missing packet |
| JitterBuffer.JitterBuffer.Flush | src/audio/jitter.rs:327-332 | everything gone, back to Buffering |
| JitterBuffer.JitterBuffer.FlushFromTimestamp | src/audio/jitter.rs:335-344 | keeps earlier timestamps, back to Buffering only when nothing is left |
| JitterBuffer.JitterBuffer.PruneOld | src/audio/jitter.rs:347-353 | keeps packets younger than the maximum age |
| JitterBuffer.PopShrinks | src/audio/jitter.rs:180-229 | every successful pop takes one packet out of the buffer |
| JitterBuffer.DrainSplits | src/receiver/audio_pipeline.rs:83-97 | popping until enough bytes or nothing takes packets out without losing or repeating one |
| JitterBuffer.DrainStops | src/receiver/audio_pipeline.rs:83-97 | popping goes on exactly until the bytes wanted are met or a pop finds nothing |
| JitterBuffer.FillOutput | src/receiver/audio_pipeline.rs:79-100 | terminates even on empty packets; the output is the popped payloads end to end, cut to the buffer, then zeros, the count returned is the audio part, fewer bytes come only when a pop found nothing, and what was buffered is what came out and what is left |
| SequenceTracker.LossAccountsForSpanIff | src/receiver/sequence_tracker.rs:50-90 | received plus lost is the unwrapped span over any number of wraps exactly when no packet is 1000 or more ahead, and never exceeds it |
| SequenceTracker.HistoryIsLatestGaps | src/receiver/sequence_tracker.rs:61-70 | the history is the 100 most recent gaps of the run and the gap count is their total |
| SequenceTracker.ReorderedExample | src/receiver/sequence_tracker.rs:53-75 | one packet out of order makes the span 65536 while nothing counts as lost |
| SequenceTracker.SequenceTracker.RecordPacket | src/receiver/sequence_tracker.rs:50-84 | the in-place update and the gap returned |
| HapSession.DeframingIgnoresFragmentation | src/connection/manager.rs:1856-1893 | for any messages and any cut of their ciphertext into reads, the text fed is that of the longest run of whole blocks received, the rest is held, no error occurs and the block counter agrees with the sender's |
| HapSession.MessagesArriveIntact | src/connection/manager.rs:1863-1893 | once all bytes have arrived the messages have been fed in order and nothing is left over |
| HapWire.AnyStreamIgnoresFragmentation | src/connection/manager.rs:1856-1893 | for every cipher and every stream, damaged or forged too, text fed, counter, error and bytes held depend only on the bytes received |
| HapWire.FedOnlyWhatWasSealed | src/connection/manager.rs:1863-1893 | there is no error exactly while the stream is sealed blocks in order up to part of one; the text fed is always that of the sealed blocks in front, and an error is always a block not sealed there |
| HapWire.OpenBlockIff | src/net/secure.rs:81-123 | a block opens to a text exactly when it is that text sealed under the counter |
| HapWire.OpenBlockErrors | src/net/secure.rs:85-98 | when each of the three errors is returned |
| HapWire.NonceLayout | src/net/secure.rs:51-53 | four zero bytes and then the counter, lowest byte first, which can be read back |
| HapWire.BlockFormat | src/net/secure.rs:43-68 | length, low byte first, then the text sealed with the length as associated data, then the tag |
| HapWire.KthBlock | src/net/secure.rs:43-70 | the k-th block of a session is sealed under the k-th counter and starts where those before it end |
| HapCalls.SecondCallResumes | src/connection/manager.rs:1830-1835 | a call whose reads end on a block and the next call together do what one call over all the reads would |
| HapCalls.SecondCallResumesIff | src/connection/manager.rs:1830-1835 | for every continuation two calls do what one would, exactly when the first ends on a block |
| HapCalls.LeftoverNeverRecovered | src/connection/manager.rs:1833 | otherwise, for every continuation, the two calls differ from the one |
| HapCalls.EmptyBufferIff | src/connection/manager.rs:1863-1893 | a call holds undecrypted bytes exactly unless its reads end on a block |
| HapCalls.LeftoverLostExample | src/connection/manager.rs:1833 | a message cut after its first byte between two calls is never fed, and no error is raised |
| HapSession.WholeBlocksIsLongest | src/connection/manager.rs:1868-1871 | no longer run of blocks fits the bytes received |
| HapSession.DrainTakesWholeBlocks | src/connection/manager.rs:1867-1893 | the inner loop takes out exactly the whole blocks at the front |
| HapSession.SendAllIsOneWire | src/net/secure.rs:40-73 | successive messages form one numbering of blocks that spells out the messages |
| HapSession.BlockRoundTrip | src/net/secure.rs:81-123 | decrypting a sealed block under the same counter returns its text and what follows it |
| HapSession.ChunksCorrect | src/net/secure.rs:43 | pieces of 1024 bytes but for the last, as few as possible, that join to the message |
| HapSession.NoncesDistinctIff | src/net/secure.rs:51-53 | no nonce is used twice exactly as long as at most 2^64 blocks are sealed |
| HapSession.NonceInjective | src/net/secure.rs:100-102 | different counters give different nonces |
| HapSession.HapSecureSession.constructor | src/net/secure.rs:24-32 | both counters start at 0 |
| HapSession.HapSecureSession.Encrypt | src/net/secure.rs:40-73 | the loop produces the numbered blocks of the message and moves the counter by their number |
| HapSession.HapSecureSession.DecryptBlock | src/net/secure.rs:81-123 | the three error cases, and the counter moves only on success |
| HapSession.ReceiveResponse | src/connection/manager.rs:1832-1893 | the nested loops over reads and blocks compute the deframing function, errors included |
| HeaderReader.FragmentationIndependentIff | src/connection/manager.rs:1702-1765 | every cut of the stream into reads of 1 to 1024 bytes gives the response a whole-stream reader would give, exactly when the headers end within 4097 bytes |
| HeaderReader.RespondExact | src/connection/manager.rs:1702-1765 | the response for any given cut: the next content-length bytes after the first blank line, or the error |
| HeaderReader.RespondWithoutBlankLine | src/connection/manager.rs:1708-1731 | without a blank line, which error is returned |
| HeaderReader.ReadHeadersExact | src/connection/manager.rs:1708-1731 | searching from three bytes before the new data finds the first blank line of the whole stream |
| HeaderReader.BodyIsNextBytes | src/connection/manager.rs:1751-1765 | the buffered part and the exact read join to the next content-length bytes |
| HeaderReader.AdverseFails | src/connection/manager.rs:1720-1730 | a cut that fails whenever the headers end later |
| HeaderReader.Search | src/connection/manager.rs:1720-1723 | the first blank line at or after the start, if any |
| HeaderReader.AtIff | src/connection/manager.rs:1720-1723 | a blank line is carriage return and line feed, twice |
| HeaderReader.ReadResponse | src/connection/manager.rs:1702-1775 | the reader's loops compute the response function |
| Sessions.EveryInterleavingIsOrderly | src/receiver/session_manager.rs:200-274 | in every interleaving, announcements between the two sends of a second lock included, each end is announced once and after its own start, and every started session is exactly one of active, taken by an operation about to announce its end, or ended |
| Sessions.RejectNeverPreempts | src/receiver/session_manager.rs:211-214 | under Reject and Queue no session is ever ended by a start |
| SessionCauses.EveryEndHasACause | src/receiver/session_manager.rs:200-493 | in every interleaving each end announced has its cause among the steps: an end call, an idle session, an age over a maximum that is set, or a start under AllowPreempt |
| SessionCauses.UnlimitedNeverExpires | src/receiver/session_manager.rs:469-470 | with a maximum duration of 0 no session is ever ended for its age |
| SessionCauses.TimeoutTakesIff | src/receiver/session_manager.rs:460-482 | a timeout check takes the session exactly when idle or over a maximum that is set, under the reason that applies, and otherwise changes nothing |
| SessionCauses.EndTakes | src/receiver/session_manager.rs:396-409 | an end takes what is active and nothing else |
| SessionCauses.StartRefusedIff | src/receiver/session_manager.rs:201-258 | a start is refused at either lock exactly when it finds a session it may not preempt |
| SessionCauses.StartPhases | src/receiver/session_manager.rs:200-273 | what each phase of a start does to the session, the log and the lock |
| SessionCauses.StartNeverLost | src/receiver/session_manager.rs:200-273 | under AllowPreempt a start is, in every interleaving, on its way or has put its session in place and announced it |
| SessionCauses.NeverStuck | src/receiver/session_manager.rs:200-273 | in every reachable state the holder of the lock can go on, and with the lock free everyone can |
| Sessions.OpenInLog | src/receiver/session_manager.rs:396-410 | the log shows as many open sessions as are active or taken |
| Sessions.SecondOpenIff | src/receiver/session_manager.rs:262-272 | the one step that can show a second open session is putting one in place while an end is still to be announced, and it always does |
| Sessions.OneOpenThroughoutIff | src/receiver/session_manager.rs:200-493 | along every run at most one session is open throughout, exactly unless such a step occurs |
| Sessions.SerialShowsOne | src/receiver/session_manager.rs:200-493 | operations that do not overlap in time never show two open sessions |
| Sessions.OverlapExample | src/receiver/session_manager.rs:397-409 | a run under Reject whose log shows two open sessions |
| Sessions.StepKeepsInv | src/receiver/session_manager.rs:200-493 | every locked phase of every operation keeps the invariant |
| Sessions.SessionManager.constructor | src/receiver/session_manager.rs:161-174 | no session, no events |
| Sessions.SessionManager.StartFirstPhase | src/receiver/session_manager.rs:201-219 | the first lock of a start |
| Sessions.SessionManager.StartSecondPhase | src/receiver/session_manager.rs:238-273 | the second lock of a start, the race re-checked |
| Sessions.SessionManager.Take | src/receiver/session_manager.rs:397-400 | the lock of an end |
| Sessions.SessionManager.TakeIfDue | src/receiver/session_manager.rs:460-482 | the lock of a timeout check, with its two reasons |
| Sessions.SessionManager.AnnounceEnd | src/receiver/session_manager.rs:405-408 | the announcement outside the lock |
| Queue.AddCorrect | src/control/queue.rs:39-51 | adding keeps the shuffle order a permutation, the current track, and appends to the play order |
| Queue.InsertCorrect | src/control/queue.rs:54-82 | inserting anywhere does the same |
| Queue.MoveCorrect | src/control/queue.rs:124-159 | moving changes neither the play order nor the current track |
| QueueEdits.AddPlaces | src/control/queue.rs:39-51 | an added track goes last and nothing else moves |
| QueueEdits.InsertPlaces | src/control/queue.rs:54-67 | an inserted track goes to its index, or last past the end, between the tracks before and behind |
| QueueEdits.AddNextPlaysNextIff | src/control/queue.rs:85-88 | exactly when the track added to be played next is the one an advance returns |
| QueueEdits.AddNextLastExample | src/control/queue.rs:78 | from a new queue: in a shuffle order it is played last |
| QueueEdits.MovePlaces | src/control/queue.rs:124-130 | a moved track ends at its new place, the others keep their order, and an index out of range changes nothing |
| QueueEdits.RemoveCurrentMoves | src/control/queue.rs:96-107 | with the current track removed, the one behind it, or the last, becomes current |
| QueueEdits.RemoveOtherwise | src/control/queue.rs:91-107 | no current track stays none, and an id not queued changes nothing |
| QueueEdits.SetCurrentCorrect | src/control/queue.rs:182-193 | succeeds exactly for an index in range and then makes that track current |
| QueueEdits.PreviousUndoesSetCurrent | src/control/queue.rs:182-237 | previous returns to the track that was current |
| QueueEdits.UnshufflePlaysOn | src/control/queue.rs:280-282 | out of shuffle mode advances go on in list order from the current track |
| QueueEdits.ClearedPlaysNothing | src/control/queue.rs:162-167 | a cleared queue returns nothing in either direction although its history is kept |
| QueueRuns.RemoveCorrect | src/control/queue.rs:91-121 | removing takes exactly the one track out of items and play order and keeps the current track unless it is that one |
| QueueRuns.ReachableWellFormed | src/control/queue.rs:27-282 | after any calls on a new queue ids differ, the current index is in range and the shuffle order is a permutation of the item indices |
| QueueRuns.CallKeepsWellFormed | src/control/queue.rs:39-282 | each of the ten operations keeps this |
| QueueRuns.RemoveKeepsUpNextIff | src/control/queue.rs:110-118 | the tracks to come survive a removal exactly when the removed one was not reached yet or none were to come |
| QueueRuns.RemoveSkipsExample | src/control/queue.rs:110-118 | from a new queue: removing the first of three shuffled tracks while the second plays skips the third |
| QueueRuns.UpcomingIff | src/control/queue.rs:330-342 | upcoming panics exactly when a shuffled queue's position is not inside its order, and otherwise lists the first of the tracks that advancing would play |
| QueueRuns.UpcomingPanicExample | src/control/queue.rs:333-334 | it panics on a new queue that is shuffled |
| QueueRuns.ShuffleCorrect | src/control/queue.rs:260-277 | shuffling yields a permutation headed by the current track |
| QueueRuns.ArrangementExists | src/control/queue.rs:264-274 | every queue has an arrangement of its other indices for the shuffle to pick |
| QueueRuns.ShuffleVisitsAllOnce | src/control/queue.rs:205-227 | after a shuffle with a current track, advances among any adds, inserts and moves return no track twice, and all others before returning nothing |
| QueueRuns.ShuffleWithoutCurrentSkips | src/control/queue.rs:267-274 | without one, exactly the tracks of the order up to the old position are never returned |
| QueueRuns.VisitsFollowOrder | src/control/queue.rs:205-227 | the tracks a run returns are the next stretch of the final play order |
| QueueRuns.PreviousRetraces | src/control/queue.rs:230-237 | n advances, n at most 100, then any adds, inserts and moves, are retraced by n calls to previous, shuffled or not |
| QueueRuns.ShuffledRetraceIff | src/control/queue.rs:321-326 | from any shuffled queue n advances can be retraced exactly when n is at most 100, or 101 with the current track happening to stand 100 places on in the order |
| QueueRuns.ShuffledRetraceInStepIff | src/control/queue.rs:321-326 | from the track the shuffle position is at, whatever the history holds, exactly when n is at most 100 |
| QueueBack.UnshuffledRetraces | src/control/queue.rs:230-257 | not shuffled, any number of advances is retraced, whatever the history held |
| QueueBack.AdvanceReturnsIff | src/control/queue.rs:205-257 | an advance returns to the track a step back left exactly when, shuffled, that track is at the place of the order it goes to, or, not shuffled, the step was to its neighbour |
| QueueBack.AdvanceUndoesPreviousIff | src/control/queue.rs:205-257 | with the shuffle position at the current track, exactly when the step was not through the history in shuffle mode, or went to the neighbour out of it |
| QueueBack.NotUndoneExample | src/control/queue.rs:231-237 | from a new queue: with the second of three shuffled tracks playing, previous then advance ends on the third |
| QueueBack.PositionKeptIff | src/control/queue.rs:39-282 | the one call that moves the shuffle position past the queue is a removal while it is as large as the queue |
| QueueBack.StaysInRangeIff | src/control/queue.rs:39-282 | over whole runs the position stays in range exactly unless such a removal occurs, and no call panics as long as none does |
| QueueBack.NoRemovalNoPanic | src/control/queue.rs:230-257 | after any calls but removals on a new queue nothing has panicked and previous does not |
| QueueBack.GoingBackPanicsIff | src/control/queue.rs:240-243 | going back often enough panics exactly when the queue is shuffled with its position past the order |
| QueueBack.RemovalCausesPanicIff | src/control/queue.rs:91-121 | a removal from a shuffled queue in range makes going back panic exactly when the position is as large as the queue |
| QueueBack.PanicsThenRecovers | src/control/queue.rs:240-243 | with the history used up it panics for exactly the calls the position is past the order and then plays from its end |
| QueueBack.PreviousPanicExample | src/control/queue.rs:240-243 | from a new queue: two removals after an advance make previous index past the order |
| PlaybackQueue.PlaybackQueue.constructor | src/control/queue.rs:27-36 | an empty queue |
| PlaybackQueue.PlaybackQueue.Add | src/control/queue.rs:39-51 | the in-place addition |
| PlaybackQueue.PlaybackQueue.Insert | src/control/queue.rs:54-82 | the in-place insertion with its index shifts |
| PlaybackQueue.PlaybackQueue.AddNext | src/control/queue.rs:85-88 | the in-place insertion behind the current track |
| PlaybackQueue.PlaybackQueue.ShiftUp | src/control/queue.rs:72-76 | the loop that shifts indices up |
| PlaybackQueue.PlaybackQueue.Remove | src/control/queue.rs:91-121 | the in-place removal and its result |
| PlaybackQueue.PlaybackQueue.CloseGap | src/control/queue.rs:111-117 | dropping one index and closing up the rest |
| PlaybackQueue.PlaybackQueue.MoveTrack | src/control/queue.rs:124-159 | the in-place move |
| PlaybackQueue.PlaybackQueue.Renumber | src/control/queue.rs:147-157 | the loop that renumbers indices for a move |
| PlaybackQueue.PlaybackQueue.SetCurrent | src/control/queue.rs:182-193 | the old current track goes into the history |
| PlaybackQueue.PlaybackQueue.AddToHistory | src/control/queue.rs:321-326 | keeps the newest 100 ids |
| PlaybackQueue.PlaybackQueue.Advance | src/control/queue.rs:205-227 | the in-place step forward and its result |
| PlaybackQueue.PlaybackQueue.Previous | src/control/queue.rs:230-257 | the in-place step back and its result, or the panic and the state it leaves |
| PlaybackQueue.PlaybackQueue.Shuffle | src/control/queue.rs:260-277 | the new order for a given random arrangement |
| PlaybackQueue.PlaybackQueue.Unshuffle | src/control/queue.rs:280-282 | the order is given up in place |
| PlaybackQueue.PlaybackQueue.Clear | src/control/queue.rs:162-167 | all but the history is given up in place |
| Groups.AlwaysConsistent | src/group/manager.rs:232-365 | in every reachable state a device maps to a group exactly when it is a member, no device is in two groups, members differ, and a non-empty group has exactly one leader, the one it names |
| Groups.AddMemberCorrect | src/group/manager.rs:105-121 | adding makes the device a member, changes no other membership and keeps the leader |
| Groups.RemoveMemberCorrect | src/group/manager.rs:124-137 | removing keeps the leader unless it is removed, and then promotes the first of the rest |
| Groups.RemoveMemberHas | src/group/manager.rs:124-137 | exactly the one membership ends |
| Groups.StepKeeps | src/group/manager.rs:232-365 | every operation, failed or not, keeps the two maps in agreement |
| GroupEffects.LeaderIsLongestStanding | src/group/manager.rs:105-137 | in every reachable state each group is led by the member that joined first of those present |
| GroupEffects.JoiningOrder | src/group/manager.rs:105-137 | a new member goes last and the others keep their order when one leaves |
| GroupEffects.CreateEffect | src/group/manager.rs:232-237 | one empty group more and nothing else |
| GroupEffects.CreateWithEffect | src/group/manager.rs:244-273 | exactly the given devices join the new group; an error exactly when one is taken |
| GroupEffects.DeleteEffect | src/group/manager.rs:276-289 | the group and exactly its memberships end |
| GroupEffects.AddDeviceEffect | src/group/manager.rs:311-341 | when each error is returned, and otherwise exactly one membership begins |
| GroupEffects.RemoveDeviceEffect | src/group/manager.rs:348-365 | exactly one membership ends, and the group exactly when it was the last |
| Groups.GroupManager.constructor | src/group/manager.rs:224-229 | no groups, no mappings |
| Groups.GroupManager.CreateGroup | src/group/manager.rs:232-237 | adds an empty group |
| Groups.GroupManager.CreateGroupWithDevices | src/group/manager.rs:244-273 | the two loops; nothing changes if any device is taken |
| Groups.GroupManager.DeleteGroup | src/group/manager.rs:276-289 | the loop that removes the group's mappings |
| Groups.GroupManager.AddDeviceToGroup | src/group/manager.rs:311-341 | both errors change nothing |
| Groups.GroupManager.RemoveDeviceFromGroup | src/group/manager.rs:348-365 | removes the device, and the group if it is then empty |
| Discovery.ScanReproducesBrowser | src/discovery/browser.rs:174-366 | after every run folding the events gives the browser's table, no id is added while held or updated while not |
| Discovery.NoSecondAddition | src/discovery/browser.rs:327-336 | between two additions of an id there is a removal of it |
| Discovery.SpuriousIff | src/discovery/browser.rs:339-366 | a step announces the removal of an id not held exactly when it withdraws the last name of an unknown id |
| Discovery.NoneSpuriousIff | src/discovery/browser.rs:174-366 | the same over whole runs |
| Discovery.SpuriousExample | src/discovery/browser.rs:174-366 | a service resolved without an address and then removed announces one removal and nothing else |
| Discovery.RecentlySeenSurvives | src/discovery/browser.rs:388-407 | a device survives all pruning within 360 seconds of being seen, whatever resolves or is removed meanwhile, as long as it keeps one service |
| Discovery.StaleIff | src/discovery/browser.rs:388-398 | over every run a device not seen again is stale exactly more than 360 seconds after it was seen |
| Discovery.ResolveEffect | src/discovery/browser.rs:174-337 | what a resolution files, names and announces, and that it touches no other device |
| Discovery.PruneEffect | src/discovery/browser.rs:403-408 | a stale device goes with all its names and nothing else does |
| Discovery.WithdrawIff | src/discovery/browser.rs:339-366 | a removed service takes its device away exactly when it was the last to announce it |
| Discovery.AnnouncedIff | src/discovery/browser.rs:339-366 | a step keeps every known device announced exactly unless a device's only service name resolves to another id |
| Discovery.AnnouncedThroughoutIff | src/discovery/browser.rs:174-366 | the same over whole runs |
| Discovery.UnannouncedStays | src/discovery/browser.rs:339-366 | no removed service takes an unannounced device away |
| Discovery.UnannouncedExample | src/discovery/browser.rs:174-337 | one name resolving to two ids in turn leaves the first device known and unannounced |
| Discovery.DeviceBrowser.constructor | src/discovery/browser.rs:146-153 | nothing known |
| Discovery.DeviceBrowser.HandleResolved | src/discovery/browser.rs:174-337 | the in-place update and its event, with both early returns |
| Discovery.DeviceBrowser.HandleRemoved | src/discovery/browser.rs:339-366 | the in-place removal and its event |
| Discovery.DeviceBrowser.PruneOne | src/discovery/browser.rs:381-409 | drops one device unseen for over 360 seconds with all its names whenever there is one, and otherwise nothing |
| Discovery.CollectDevices | src/discovery/mod.rs:142-159 | the scan's loop computes the fold of its events |
| NumberTheory.EgcdBezout | airplay2-receiver/ap2/airplay1.py:121-126 | g = a x + b y for all integers, with Python's floored division |
| NumberTheory.EgcdDivides | airplay2-receiver/ap2/airplay1.py:121-126 | g divides both arguments |
| NumberTheory.EgcdGreatest | airplay2-receiver/ap2/airplay1.py:121-126 | every common divisor divides g |
| NumberTheory.Fermat | airplay2-receiver/ap2/airplay1.py:106-111 | a^p leaves the remainder of a by a prime p, on which the reduced exponents rest |
| CrtSignature.ModInvCorrect | airplay2-receiver/ap2/airplay1.py:129-134 | an answer exactly when an inverse exists, and then it is one, reduced |
| CrtSignature.RecombineCorrect | airplay2-receiver/ap2/airplay1.py:112-113 | the recombination meets both residues and lies below p q |
| CrtSignature.ReducedExponent | airplay2-receiver/ap2/airplay1.py:106-111 | reducing the exponent is harmless exactly unless it becomes 0 under a multiple of the prime |
| CrtSignature.SignCorrectIff | airplay2-receiver/ap2/airplay1.py:106-113 | for distinct primes and every message the result is message^d mod p q, exactly unless one of the two exponents degenerates |
| CrtSignature.SignRejectsEqualPrimes | airplay2-receiver/ap2/airplay1.py:109 | with p = q the inverse does not exist and the routine raises |
| CrtSignature.DegenerateExample | airplay2-receiver/ap2/airplay1.py:106-113 | for 2, 3, exponent 2 and message 3 the result is 1 instead of 3 |
| CrtSignature.SignatureVerifies | airplay2-receiver/ap2/airplay1.py:102-113 | with matching public exponent and odd primes, verification returns the signed message |

## Left out

- Sockets, tokio tasks, the mDNS daemon, mutex scheduling and logging: only the atomic steps they delimit are modelled.
- The ciphers, the AAC and ALAC encoders, resampling and the RTP, RTSP and plist codecs.
- HapSession.ReceiveResponse: errors raised by the RTSP parser are not modelled.
- HeaderReader.ReadResponse: the text of the headers (UTF-8 validity and the Content-Length line) is a parameter.
- PcmStreamer.PcmStreamer.AudioTick: PCM codec only; seeking, pausing, retransmission and time announcements are left out.
- Discovery.DeviceBrowser.HandleResolved: how TXT records, addresses and ports are merged, and how an id is derived from them, are parameters.
- Sessions.SessionManager.Take: the UDP sockets, which are cleared outside the session lock, are left out.
- RingBuffer.AudioRingBuffer.Clear: only as a one-thread operation; it writes both positions and has no place in the two-thread protocol.
- Custom ring watermarks, volume, member connection state, `skip_to`, jitter health figures and loss ratios: each can be read off one expression.
- The rest of `ConnectionManager`, `AirPlayClient` and `AirPlayPlayer`: sequential orchestration over the network.
- Message padding in the Apple-Challenge response: constants.
