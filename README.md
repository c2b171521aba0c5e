# TDM link, decision-index search and uniform quantizer in Dafny

This project models the discrete core of a small telephony exercise.

1. **The time-division multiplexed link** (`src/assignment_two.py`).
   - A sound stream is cut into 8-bit samples (`pick_sample`).
   - Every sample is companded and gets a framing bit in front (`make_frame`). The framing bit is taken from the cyclic 10-bit pattern `1111010000` at the sample's position in its user's stream, modulo 10. This is the index the receiver checks against. The code as written frames with the user's number instead (src/assignment_two.py:110); the model follows the receiver's intent and records the code as written under "## Findings".
   - The frame queues of six users are drained round by round into packets (`create_packets_from_frames`). Each round visits the users in ascending key order.
   - On the receiving side frame `i` of the link belongs to user `i mod 6` (`decode_packets`). A per-user cursor counts the samples accepted so far and selects the framing bit the next frame must carry. A frame that fails this check is dropped.
2. **The decision-index search** (`bin_search_index` in `src/utils.py`). This is a recursive binary search for the quantization level just below a sample.
3. **The uniform quantizer** (`uniform_quantize` in `src/assignment_one.py`). It builds `levels` thresholds `(i + 1) * delta`, snaps each sample to one of them, and adds up the squared errors of the interior snaps. The model searches with the corrected `bin_search_index`; what the search as written changes is under "## Findings".

## Modules

- **`FrameCodec`** (`framing.dfy`)
  - Bit streams are `seq<bool>`.
  - It holds the constants and `pick_sample`, `make_frame` and `unwrap_and_check_frame` as functions.
  - It also holds the sample sequence of a stream and the concatenation of sound values, with their round trips.
- **`Encoder`** (`encoder.dfy`)
  - `to_bit_stream` and the framing loop of `create_user_frames` are methods with loops.
  - `ToBitStream` is proved against `Concat`, and `FrameUserStream` against the specification function `FramesFrom`.
  - It also models the framing as written, with the user index. `Pipeline.AsWrittenDecoded` states what a receiver makes of it.
- **`Multiplexer`** (`multiplexer.dfy`)
  - The frame table that `create_packets_from_frames` drains in place is the field `queues` of the class `FrameTable`.
  - `BuildRound` is one pass of the outer loop. `CreatePacketsFromFrames` is the whole loop.
  - Both are proved against `Drained(q0, r)`, the table after `r` rounds, and `PacketAt(q0, r)`, the packet of round `r`. Lemmas state what every packet holds and how many there are.
- **`Demultiplexer`** (`demultiplexer.dfy`)
  - `decode_packets` is a method that keeps both dictionaries, the received samples and the lazily created cursors.
  - It is proved against the frame-by-frame function `Decoded`.
  - Lemmas separate the users (`DecodedPerUser`), state when a frame is accepted, and show what a dropped frame does to the following ones.
- **`Pipeline`** (`pipeline.dfy`)
  - This is `main`'s chain: the packets are put on the link frame after frame and decoded again.
  - `LinkRoundTrip` states that every user receives every sample of the stream, companded and expanded again, in order.
- **`BinSearch`** (`bin_search.dfy`)
  - The search is a recursive function with its boundary rules.
  - It is proved to return the floor index on strictly ascending levels, for a value at or above the first level.
  - It also models the search as written.
- **`Quantizer`** (`quantizer.dfy`)
  - It works over exact `real`.
  - `UniformQuantize` is a method with the source's loop, proved against `SnapSample`, `LevelsFor` and `ErrorSum`. It uses the corrected search; `AsWrittenSearchMisquantizes` shows a sample the search as written snaps differently.
  - Lemmas prove that the thresholds ascend, that the boundary and interior snapping rules hold, that snaps stay within range, that interior snaps go to a nearest level, and that the error is never negative.

The companders are parameters: `compress: Bits -> Bits` on the sending side and `expand: Bits -> S` on the receiving side. The model makes no claim about them beyond their being functions.

## Model

| member | source | states |
|---|---|---|
| FrameCodec.PatternBits | src/assignment_two.py:11 | The framing pattern is 1111010000, bit by bit. |
| FrameCodec.PatternIndexInBounds | src/assignment_two.py:11-12 | A cursor taken modulo the samples per frame always indexes inside the framing pattern. |
| FrameCodec.PickSample | src/assignment_two.py:34-43 | The sample and the rest put together give the stream back. The sample has the requested width, or the whole stream when the stream is shorter. |
| FrameCodec.Samples | src/assignment_two.py:96-104 | Cutting a stream into samples gives no samples iff the stream is empty. Every sample is non-empty and at most the width long, and every sample but the last is exactly the width long. |
| FrameCodec.Concat | src/assignment_two.py:70-78 | Joining sound values gives the empty stream iff every value is empty. |
| FrameCodec.SamplesOfConcat | src/assignment_two.py:70-78 | Joining sound values of the sample width into one stream and cutting it into samples again gives the same values back. |
| FrameCodec.ConcatOfSamples | src/assignment_two.py:96-104 | Cutting a stream into samples until it is exhausted loses and adds nothing. Every sample is non-empty and at most the width long. |
| FrameCodec.MakeFrame | src/assignment_two.py:46-55 | A frame is one bit longer than its sample. |
| FrameCodec.UnwrapAndCheckFrame | src/assignment_two.py:58-67 | The payload is the frame without its first bit, valid or not: the first bit followed by the payload gives the frame back. |
| FrameCodec.FrameRoundTrip | src/assignment_two.py:46-67 | A frame made at pattern index k and checked at k is valid and gives back exactly its sample. |
| FrameCodec.UnwrapValidIff | src/assignment_two.py:58-67 | The check passes iff the first bit equals the pattern bit. It passes iff the frame is the frame made at k from its payload. |
| FrameCodec.MisalignedCheck | src/assignment_two.py:58-67 | A frame made at index k and checked at index j passes iff the pattern bits at k and j agree. The payload is the sample either way. |
| Encoder.ToBitStream | src/assignment_two.py:70-78 | There is no stream (None) iff there are no sound values. Otherwise the stream is all values joined in order. |
| Encoder.FramesFrom | src/assignment_two.py:96-118 | There is one frame per sample of the stream, and every frame is non-empty. What each frame holds is stated by `FramesFromAt`. |
| Encoder.FramesFromAt | src/assignment_two.py:96-118 | There is one frame per sample. Frame j is sample j, companded, behind pattern bit (n + j) mod 10. |
| Encoder.FrameUserStream | src/assignment_two.py:96-118 | The framing loop over one user's stream gives one frame per sample. Frame j carries sample j companded behind pattern bit j mod 10. |
| Encoder.CreateUserFrames | src/assignment_two.py:81-120 | Users 0 to 5 are in the table exactly when the joined stream is non-empty. Each of them gets the frames of the whole stream. |
| Encoder.FramesAsWritten | src/assignment_two.py:110 | Framed with the user index, every frame of user u starts with pattern bit u, whatever the sample's position. |
| Encoder.FramesAsWrittenAt | src/assignment_two.py:96-118 | Framed with the user index, frame j of user u is sample j, companded, behind pattern bit u. There is one frame per sample. |
| Multiplexer.SetMin | src/assignment_two.py:139 | The smallest key is a key, and no key is smaller. |
| Multiplexer.SortedKeys | src/assignment_two.py:139 | `sorted` of the keys holds each key exactly once, in strictly increasing order. |
| Multiplexer.Senders | src/assignment_two.py:140-146 | A round has no more senders than users visited. |
| Multiplexer.HeadsAreSenders | src/assignment_two.py:139-146 | Position i of a round's packet is the head of the queue of the i-th sender, whose queue is non-empty. |
| Multiplexer.SendersAreNonEmpty | src/assignment_two.py:140-146 | A user sends in a round iff it is visited with a non-empty queue. |
| Multiplexer.SendersIncreasing | src/assignment_two.py:139-146 | The senders of a round keep the ascending key order. |
| Multiplexer.Visit | src/assignment_two.py:140-145 | Every other user keeps its queue. The visited user stays iff its queue was non-empty, and then its old queue is its head followed by its new queue. |
| Multiplexer.VisitAllIsAfterVisits | src/assignment_two.py:139-146 | After visiting distinct keys in order, visited empty users are gone and visited users have lost their head. Unvisited users are untouched. |
| Multiplexer.Drained | src/assignment_two.py:136-146 | The table after r rounds: each user with at least r frames, less its first r frames. It has no contract of its own; `NextRound`, `RoundStep`, `DrainedNonEmpty`, `DrainedEmpty` and `PacketShape` state what it is. |
| Multiplexer.PacketAt | src/assignment_two.py:138-146 | The packet of round r holds at most one frame per user. Which frames, and in what order, is stated by `PacketShape`. |
| Multiplexer.Rounds | src/assignment_two.py:136-150 | The loop runs no rounds iff the table is empty. Otherwise it runs one more round than the longest queue holds frames: every queue is shorter than the round count, and one queue is exactly one shorter. |
| Multiplexer.NextRound | src/assignment_two.py:136-146 | One round turns the table after r rounds into the table after r + 1 rounds. |
| Multiplexer.RoundStep | src/assignment_two.py:136-148 | One pass of the outer loop leaves the table after r + 1 rounds and appends the packet of round r. |
| Multiplexer.MaxLenIsLongest | src/assignment_two.py:136-148 | No queue is longer than MaxLen, and some queue of a non-empty table is that long. |
| Multiplexer.DrainedNonEmpty | src/assignment_two.py:136 | While a user is left after r rounds, the loop has not yet run all its rounds. |
| Multiplexer.DrainedEmpty | src/assignment_two.py:136 | Once the table is empty, exactly `Rounds` rounds have run. |
| Multiplexer.PacketShape | src/assignment_two.py:138-148 | Packet r carries, in ascending key order and once each, exactly the users with more than r frames. Its frame from user k is k's frame number r. |
| Multiplexer.PacketFrames | src/assignment_two.py:139-146 | Packet r is as long as its sender list, and its frame at position i is frame number r of the i-th sender, which has more than r frames. |
| Multiplexer.PacketMembers | src/assignment_two.py:139-146 | A user sends in round r iff it has more than r frames. |
| Multiplexer.IncreasingDistinct | src/assignment_two.py:139 | A strictly increasing key sequence lists as many distinct users as it has entries. |
| Multiplexer.PacketSizeMonotone | src/assignment_two.py:136-148 | A later round's packet is never larger than an earlier one: a user without frame r has no frame r + 1 either. |
| Multiplexer.PacketsShrink | src/assignment_two.py:123-150 | Along the list of packets the packet sizes never increase. |
| Multiplexer.EveryFrameSent | src/assignment_two.py:136-150 | Frame r of every user k goes out in packet r, before the last packet. The last packet of a non-empty table is empty. |
| Multiplexer.EqualQueuesRounds | src/assignment_two.py:136-150 | With n frames queued for every user, the loop runs n + 1 rounds and the last packet is empty. |
| Multiplexer.FrameTable.constructor | src/assignment_two.py:123 | The table holds the caller's frame queues. |
| Multiplexer.FrameTable.BuildRound | src/assignment_two.py:138-146 | One pass visits the users in sorted key order. The packet is the heads of the non-empty queues, and the table is left as AfterVisits describes. |
| Multiplexer.FrameTable.CreatePacketsFromFrames | src/assignment_two.py:123-150 | The table ends empty. The packets are those of `Rounds` rounds: 1 + the longest queue, none for an empty table. |
| Demultiplexer.DecodedSnoc | src/assignment_two.py:157-183 | One more frame is one more step of the receiver for the user at its position. |
| Demultiplexer.Decoded | src/assignment_two.py:153-185 | Only users 0 to 5 receive anything, and a user in the result has received at least one sample. |
| Demultiplexer.CursorAdded | src/assignment_two.py:160-166 | A cursor created for a user with no entry starts at 0, and that user has received nothing. |
| Demultiplexer.CursorAdvanced | src/assignment_two.py:177-183 | Appending a sample and incrementing the cursor keeps every cursor equal to its user's sample count. |
| Demultiplexer.DecodePackets | src/assignment_two.py:153-185 | The receive loop with its cursor table computes, frame by frame, what `Decoded` specifies. |
| Demultiplexer.UserFrames | src/assignment_two.py:158 | Taking a user's frames by position keeps every frame non-empty. |
| Demultiplexer.DecodeUser | src/assignment_two.py:160-183 | One user's receive path never yields more samples than it was given frames. |
| Demultiplexer.DecodedPerUser | src/assignment_two.py:157-183 | What user u receives depends only on the frames at positions u, u + 6, ..., decoded with u's own cursor. |
| Demultiplexer.Mapped | src/assignment_two.py:170 | Putting a sequence of samples through the expander (or the compander) keeps its length and maps each sample at its position. |
| Demultiplexer.DecodeOwnFrames | src/assignment_two.py:169-183 | A user whose j-th frame carries pattern bit j mod 10 has every frame accepted and receives all samples, expanded, in order. |
| Demultiplexer.CheckedAgainst | src/assignment_two.py:169-180 | A frame made for index k arriving when the cursor selects j is accepted iff the pattern bits at k and j agree. |
| Demultiplexer.DroppedFrame | src/assignment_two.py:172-174 | A frame whose first bit differs from the selected pattern bit adds nothing and leaves the cursor where it was. |
| Demultiplexer.DropShiftsPattern | src/assignment_two.py:172-183 | When a user's fourth frame is corrupted, its intact fifth frame is dropped too. |
| Demultiplexer.DecodeZeroBit | src/assignment_two.py:160-183 | A user whose frames all carry a 0 framing bit has every frame dropped and receives nothing. |
| Demultiplexer.DecodeOneBit | src/assignment_two.py:160-183 | A user whose frames all carry a 1 framing bit receives its first four samples, expanded, in order, and nothing after them. |
| Demultiplexer.OneBitStep | src/assignment_two.py:169-183 | After n such frames, one more is accepted while n < 4 and dropped from then on, because the cursor stops at pattern index 4. |
| Pipeline.FlattenFullPackets | src/assignment_two.py:25-27 | When every packet holds six frames, frame i of the link is frame i mod 6 of packet i / 6. |
| Pipeline.Flatten | src/assignment_two.py:25-27 | Every frame of every packet is on the link, and every frame on the link comes from some packet. |
| Pipeline.UserFramesAt | src/assignment_two.py:158 | User u's frames are the link's frames at positions 6j + u, and there are as many as those positions. |
| Pipeline.IncreasingIsRange | src/assignment_two.py:139 | An increasing key sequence holding exactly the keys below m is 0, 1, ..., m - 1. |
| Pipeline.FullPacket | src/assignment_two.py:138-148 | For a table giving users 0 to 5 the same frames, packet r holds that round's frame once per user, in user order. |
| Pipeline.LinkFrames | src/assignment_two.py:25-27 | For such a table there are |fs| + 1 packets, and frame i of the link is frame i / 6 of the shared list. |
| Pipeline.OwnFrames | src/assignment_two.py:96-118 | The frames of a non-empty stream carry its companded samples behind pattern indices 0, 1, 2, ... |
| Pipeline.SharedFrames | src/assignment_two.py:153-185 | A link carrying each shared frame once per user, round after round, gives user u every sample. |
| Pipeline.AllUsersShare | src/assignment_two.py:153-185 | Such a link gives users 0 to 5 every sample, and nobody else anything. |
| Pipeline.LinkRoundTrip | src/assignment_two.py:19-27 | Framing, multiplexing and decoding a non-empty stream gives each of users 0 to 5 every sample, companded and expanded, in order. No other user receives anything. |
| Pipeline.AsWrittenDecoded | src/assignment_two.py:110 | Framed as written, users 0 to 3 and 5 receive their first four samples (all of them when there are fewer) and nothing after, and user 4 receives nothing. Framed with the sample count, the user receives every sample. |
| BinSearch.BinSearchIndex | src/utils.py:1-38 | The index lies in [base, base + len). At or above the last level it is the last index, even on one level. At or below the first level it is base. Exactly at the middle level it is the middle index. |
| BinSearch.BinSearchIndexIsFloor | src/utils.py:11-38 | On strictly ascending levels, for a value at or above the first level, the levels at or below the value are exactly those up to the result. |
| BinSearch.FloorInLowerHalf | src/utils.py:32-34 | Below the middle level, the floor found in the lower half is the floor of the whole sequence. |
| BinSearch.FloorInUpperHalf | src/utils.py:36-38 | Above the middle level, the floor found in the upper half, shifted by the half's offset, is the floor of the whole sequence. |
| BinSearch.BinSearchIndexAsWritten | src/utils.py:36-38 | The search as written stays below base + len. |
| BinSearch.AsWrittenMissesUpperHalf | src/utils.py:36-38 | On levels 1, 2, 3, 4 with sample 3.5 the search as written returns index 0. The intended search returns index 2. |
| Quantizer.SeqMin | src/assignment_one.py:31 | `min` returns one of the samples. |
| Quantizer.SeqMax | src/assignment_one.py:31 | `max` returns one of the samples. |
| Quantizer.SeqMinMaxBound | src/assignment_one.py:31 | Every sample lies between `min` and `max`. |
| Quantizer.Delta | src/assignment_one.py:32 | `levels` steps of the result span the range from min to max exactly. |
| Quantizer.DeltaSign | src/assignment_one.py:32 | The step is non-negative for min <= max and positive for min < max. |
| Quantizer.Thresholds | src/assignment_one.py:33 | There are `levels` thresholds. |
| Quantizer.ThresholdAt | src/assignment_one.py:33 | Threshold i is (i + 1) * delta. |
| Quantizer.LevelsFor | src/assignment_one.py:31-33 | A batch gets `levels` thresholds, and the last one is max - min. |
| Quantizer.ThresholdsAscending | src/assignment_one.py:33 | The thresholds ascend for delta >= 0 and strictly ascend for delta > 0. |
| Quantizer.LevelsForAscending | src/assignment_one.py:31-33 | A batch's thresholds ascend, and strictly when the samples are not all equal. |
| Quantizer.SnapAt | src/assignment_one.py:44-63 | The chosen level is one of the thresholds, and the error it adds is never negative. |
| Quantizer.SnapSample | src/assignment_one.py:40-63 | Searching and snapping a sample gives one of the thresholds and a non-negative error. |
| Quantizer.SnapError | src/assignment_one.py:44-63 | A boundary index snaps to its own level with no error. An interior index adds the squared distance to the chosen level, which is no further than either neighbour. |
| Quantizer.SnapInteriorChoice | src/assignment_one.py:51-63 | For an interior index the lower level is chosen iff it is strictly nearer. A tie goes to the higher level. |
| Quantizer.SnapNearest | src/assignment_one.py:38-63 | On strictly ascending levels, a sample at or below the first level, or with a nonzero search index, is snapped to a nearest level of all. |
| Quantizer.NearestOfBracket | src/assignment_one.py:51-54 | A level no further than the floor level and the one after it is no further than any level. |
| Quantizer.SnapWithinRange | src/assignment_one.py:44-52 | On ascending levels every snap lies between the first and the last threshold. |
| Quantizer.SnapsWithinRange | src/assignment_one.py:35-65 | Every output of a batch lies between the first and the last threshold. |
| Quantizer.TotalErrorNonNegative | src/assignment_one.py:36 | A sum of non-negative snap errors is non-negative. |
| Quantizer.ErrorSum | src/assignment_one.py:36-63 | The reported error of a batch is never negative. |
| Quantizer.ExampleLevels | src/assignment_one.py:31-33 | Samples 0, 3.5 and 4 with four levels get the thresholds 1, 2, 3 and 4. |
| Quantizer.AsWrittenSearchMisquantizes | src/assignment_one.py:40-63 | On those thresholds the search as written makes the loop snap 3.5 to 1 with no error. The corrected search snaps it to 4 with error 0.25. |
| Quantizer.UniformQuantize | src/assignment_one.py:30-65 | There is one output per sample. Each output is the sample's snap, one of the thresholds, between the first and the last. The error is the sum of the snap errors, never negative. |

## Left out

- Quantizer.UniformQuantize: searches with the corrected `bin_search_index`, not the one src/assignment_one.py:40 calls. Every sample whose search goes into an upper half can be snapped differently from the code: on `[0.0, 3.5, 4.0]` with 4 levels the code snaps 3.5 to 1.0 with error 0, the model to 4.0 with error 0.25 (`Quantizer.AsWrittenSearchMisquantizes`).
- The companders (`src/comapanders.py`) are not part of this model.
  - They use logarithms and floating point, and their `decode` methods are not implemented.
  - They appear only as the parameters `compress` and `expand`.
- `struct.unpack("<L", sample)` and the `bitarray` conversions (src/assignment_two.py:74-76, 107-109) are not modelled. Sound values arrive as bit sequences, and companding maps bits to bits.
- Audio plumbing is not modelled: `resample_at`, reading WAV files, plotting, `q_3`, the printing of "Invalid frame" (src/assignment_two.py:173), and the empty playback loop of `main`. `src/sound_amplify.py` is not part of this model.
- Floating-point rounding is not modelled. The quantizer works over exact reals, and no claim is made about rounding of `delta` or of the error sum.
- `make_frame` as written calls `insert` with one argument and returns `None` (src/assignment_two.py:55). The model puts the framing bit at the front of the sample, as the comment at src/assignment_two.py:46-47 describes.
- `len(user_frames == 0)` (src/assignment_two.py:141) is modelled as the intended `len(user_frames) == 0`.
- Both receive dictionaries are modelled with the creation of a missing entry the code intends:
  - `user_rx_sample_index[user_index]` is read before the key exists (src/assignment_two.py:161);
  - `out_data[i]` is read before the key exists (src/assignment_two.py:114).
- `create_user_frames` index-assigns into an empty list and deletes from it while indexing (src/assignment_two.py:93-104). The model frames every user's copy of the stream in its own loop (`FrameUserStream`) and adds the user to the table when it has frames, so an empty stream gives an empty table. Because all users get the same stream, this gives the frames the round-by-round loop intends. The interleaving of the users' framing steps is not modelled.
- `out_data[i] += frame`, `packet += frame` and `rx_data[user_index] += expanded_sample` (src/assignment_two.py:118, 146, 178) would extend a list with the elements of the frame or sample. They are modelled as appending one frame or one sample.
- `main` hands the packets themselves to `decode_packets` (src/assignment_two.py:26-27), which numbers its input per frame. The model puts the packets on the link frame after frame (`Pipeline.Flatten`) and decodes that frame sequence.
- `to_bit_stream` returns `None` for no sound values, which the framing loop would then fail on. The model treats that case as an empty stream.
- The multiplexer stops only after a round finds every queue empty and deletes it. A table whose longest queue holds n frames therefore gives n + 1 packets, the last one empty (`Multiplexer.EveryFrameSent`, `Multiplexer.EqualQueuesRounds`). The docstring's picture of one packet per frame index (src/assignment_two.py:126-130) has no such packet. The model follows the code.
- A frame that fails the check does not advance the user's cursor (src/assignment_two.py:172-174). After one corrupted frame, the receiver checks the following frames against a shifted pattern index. `Demultiplexer.DropShiftsPattern` shows an intact frame dropped for this reason. The model follows the code.
- `uniform_quantize` does not guard against all samples being equal. The step is then 0, every threshold is 0, and no error is raised; the model follows the code.
- The boundary snap applies whenever the search index is 0 (src/assignment_one.py:44-46). A sample strictly between the first and second threshold therefore keeps the first threshold even when it is nearer the second, and adds no error.
- Quantizer.SnapNearest: is stated only for samples at or below the first threshold or with a nonzero search index, because the nearest-level property fails for a sample strictly between the first two thresholds.
- The thresholds start at `delta`, not at the smallest sample (src/assignment_one.py:33), as in the code.

## Findings

| source | as written | input that shows it | evidently intended | confidence | as-written member | corrected member |
|---|---|---|---|---|---|---|
| src/utils.py:36-38 | the upper-half recursion passes `base_index + mid_len` as the sample value and drops the base index | levels [1, 2, 3, 4], sample 3.5: the result is index 0 instead of 2. Through src/assignment_one.py:40, `uniform_quantize([0.0, 3.5, 4.0], 4)` then snaps 3.5 to 1.0 with error 0 instead of to 4.0 with error 0.25 | recurse on the upper half with the sample value and base `base_index + mid_len` | high; not executed | BinSearch.BinSearchIndexAsWritten, BinSearch.AsWrittenMissesUpperHalf, Quantizer.AsWrittenSearchMisquantizes | BinSearch.BinSearchIndex, BinSearch.BinSearchIndexIsFloor, Quantizer.UniformQuantize |
| src/assignment_two.py:110 | every frame is made with the user index `i` as the pattern index | a stream of at least 5 samples: user 0's fifth frame carries bit 1, but the receiver checks it against pattern index 4 (bit 0) and drops it. From then on user 0 receives nothing more, and user 4 receives nothing at all | frame sample j of a user with pattern index j mod 10, the index `decode_packets` checks against (src/assignment_two.py:169) | high; not executed | Encoder.FramesAsWritten, Pipeline.AsWrittenDecoded | Encoder.FramesFrom, Encoder.FrameUserStream, Pipeline.LinkRoundTrip |
