# SIK Telnet Radio: a verified model of the streaming core

SIK Telnet Radio streams live audio over UDP multicast from one sender to
many receivers. Receivers absorb out-of-order, duplicate and missing
fixed-size packets in a byte ring, ask the sender to retransmit holes, play
the contiguous prefix, discover stations by broadcast lookup and drop
stations that stop replying. A telnet menu lets clients choose the current
station.

This project models that core in Dafny and proves properties of the model:

- **Packet rings.** `CircularBuffer` (src/common/circular_buffer.cc) and its
  predecessor `cyclical_buffer` (src/utils/cyclical_buffer.cc) are classes
  over `data`/`occupied` arrays. Every method is proved to leave the state
  that a function of the old state gives (`CircularSpec`, `CyclicalSpec`),
  and the invariants and accounting of those functions are lemmas
  (`CircularProps`, `CyclicalProps`). The ring helpers of src/utils/buffer.cc
  are in `RingHelpers`.
- **Receiver loops.** `RxSpec`/`Rx` model the missing-packet interval set and
  write-position logic of src/receiver.cc (`Pending` holds the interval set).
  `LinearSpec`/`Linear` model the per-packet step of receiver/receiver.cc.
- **Wire codec.** `Datagram` covers the lookup, reply, retransmission-request
  and audio-packet messages of src/common/datagram.cc, with parsers proved
  against their serialisers. `AudioHeaders` covers src/utils/audio_packet.cc.
  `Endian` covers both `htonll`/`ntohll` headers, with the host byte order as
  a parameter.
- **Stations.** `Station` and `Net` model name validation, equality and
  ordering. `StationSet` is the ordered set with a current-station cursor
  (`At(i)`, `End`, or `Dangling` for an iterator to an erased element). The
  workers of lookup_receiver.cc, station_remover.cc, ui_menu.cc and
  tcp_client_handler.cc are classes whose methods change that set.
- **Workers.** The decision steps of the audio receiver, the printer, the
  retransmission requester (rexmit_sender.cc) and the sender's
  retransmitter are classes whose methods record sent datagrams, written
  bytes and pushed events as appended sequences.

Sockets, threads, locks, clocks and the event pipes' file descriptors are
not modelled. A clock reading is a parameter `now`, an event channel is a
sequence of events, and a socket is the sequence of datagrams sent on it.
The source has several defects that a faithful model exposes; each is
listed under "## Findings" with the member that shows it and the
corrected member.

The model follows the code as written, including these behaviours, which
differ from what a reader of the program's comments and messages might
expect:

- The printer, on a loss, writes nothing (not even the contiguous prefix)
  and sets PACKET_LOSS, which makes the audio receiver forget its session
  (src/receiver/audio_printer.cc:27-30, src/receiver/audio_receiver.cc:71-72).
- The station remover pushes no event on removal or re-election, and it
  re-elects before erasing (src/receiver/station_remover.cc:27-34).
- The lookup receiver inserts a new station only when it also becomes
  current (src/receiver/lookup_receiver.cc:79-84).
- The audio receiver tests the buffer's packet size, not the packet's
  (src/receiver/audio_receiver.cc:89).
- The requester asks for `ring index + abs_tail()`, not the absolute offset
  (src/receiver/rexmit_sender.cc:44).
- The retransmitter sends only once its walk has reached `abs_head()`, and
  it copies its headers in host byte order
  (src/sender/retransmitter.cc:33, 52-54).


## Model

| member | source | states |
|---|---|---|
| Arith.Add64 | src/receiver.cc:180-183 | `a + b` on uint64_t: below 2^64, and the plain sum when it fits |
| Arith.Sub64 | receiver/receiver.cc:138-148 | `a - b` on uint64_t: below 2^64, the plain difference when `b <= a`, and 2^64 minus the shortfall otherwise |
| Mem.MemSet | src/common/circular_buffer.cc:55-56 | memset leaves the array equal to the old contents with `[lo, lo+n)` set to the value |
| Mem.MemCpy | src/common/circular_buffer.cc:96 | memcpy leaves the array equal to the old contents with the source written from `pos` |
| Mem.WriteTwice | src/common/circular_buffer.cc:96 | writing the same bytes twice at one place equals writing them once |
| RingArith.Span | src/common/circular_buffer.cc:159-164 | the tail-to-head distance round the ring is at most the rounded capacity |
| RingArith.AdvanceHead | src/common/circular_buffer.cc:128-130 | the virtual new head is below two rounded capacities; the new head is aligned, leaves room for a packet, and the new tail is one packet further round |
| RingArith.AdvanceTail | src/common/circular_buffer.cc:131-135 | when the tail stays, the span grows by the head offset plus psize and still fits; when it jumps, the span is all but one slot and no smaller than the old span grown |
| RingArith.AdvanceSlot | src/common/circular_buffer.cc:114-129 | the write position is aligned with room for a packet, and the new head is one packet past it, wrapping to 0 |
| RingArith.SlotBeforeHead | src/common/circular_buffer.cc:114-130 | one packet back from the new head, counted from the tail, is the write position |
| Endian.SwapBytes | src/common/endian.hh:16-17 | on a little-endian host htonll lays out the bytes of its argument in reverse order |
| Endian.SwapLowBytes | src/common/endian.hh:17 | the low four bytes of htonll(x) on a little-endian host are the high four of `x`, reversed |
| Endian.SwapHighBytes | src/common/endian.hh:17 | the high four bytes of htonll(x) on a little-endian host are the low four of `x`, reversed |
| Endian.Htonll | src/common/endian.hh:15-21 | htonll as written (no contract of its own): stated by Endian.SwapBytes, Endian.NtohllInvertsHtonll and Endian.StoreHtonllIsBigEndian |
| Endian.NtohllInvertsHtonll | src/common/endian.hh:17-35 | on either host ntohll undoes htonll and htonll undoes ntohll |
| Endian.LoadStore64 | src/utils/audio_packet.cc:4-6 | reading back the eight bytes memcpy stores gives the value stored |
| Endian.StoreHtonllIsBigEndian | src/common/endian.hh:15-21 | storing htonll(v) lays `v` out most significant byte first on either host |
| Endian.NtohllLoadIsBigEndian | src/common/endian.hh:33-39 | ntohll of eight loaded bytes is their network-order value on either host |
| Endian.LittleEndianBytesInjective | src/common/endian.hh:16-17 | different values have different byte layouts |
| Endian.ShiftedSimpleArg | src/utils/endian.hh:7 | `x >> 32` on the text of an operand or a sum shifts the whole value |
| Endian.HtonllUnparenthesisedAgrees | src/utils/endian.hh:5-11 | for an operand or a sum the unparenthesised htonll equals the src/common/endian.hh one |
| Endian.NtohllUnparenthesisedAgrees | src/utils/endian.hh:13-19 | for an operand or a sum the unparenthesised ntohll equals the src/common/endian.hh one |
| Endian.UnparenthesisedRoundTrip | src/utils/endian.hh:7-15 | for such arguments the unparenthesised ntohll undoes the unparenthesised htonll |
| Endian.UnparenthesisedOrShiftsOnlyRightOperand | src/utils/endian.hh:7 | with `a \| b` as argument only `b` is shifted, so the result is not the byte reversal of `a \| b` |
| CircularSpec.Ring.RoundedCap | src/common/circular_buffer.cc:30-32 | `capacity / psize * psize` is a multiple of psize, at most the capacity, less than a packet below it, and at least psize when a packet fits |
| CircularSpec.Ring.Range | src/common/circular_buffer.cc:159-164 | range() is at most the rounded capacity and is zero exactly when tail == head |
| CircularSpec.Ring.PrintThreshold | src/common/circular_buffer.cc:198-200 | print_threshold() lies between byte0 and byte0 plus the capacity: byte0 plus three quarters of the capacity, less than three bytes lower because the quarter is rounded down first |
| CircularSpec.Chunks | src/common/circular_buffer.cc:66-71 | the two chunks of dump_tail add up to `n`; the first ends by the rounded capacity, the second by the head |
| CircularSpec.Emitted | src/common/circular_buffer.cc:73-74 | dump_tail(n) writes exactly `n` bytes |
| CircularSpec.DumpTail | src/common/circular_buffer.cc:76-84 | the state dump_tail(n) leaves (no contract of its own): its meaning is stated by CircularProps.DumpTailFields and CircularProps.DumpTailAccounting, and Circular.CircularBuffer.DumpTail is proved to leave it |
| CircularSpec.GapIndex | src/common/circular_buffer.cc:93-95 | the index fill_gap writes to (no contract of its own): CircularProps.FillGapKeepsIndices states that a filled gap writes there |
| CircularSpec.FillGap | src/common/circular_buffer.cc:87-98 | fill_gap as written (no contract of its own): stated by CircularProps.FillGapKeepsIndices, CircularProps.FillGapIdempotent and the CircularFix findings |
| CircularSpec.PushHead | src/common/circular_buffer.cc:100-137 | try_push_head as written (no contract of its own): stated by CircularProps.RestartOnlyInOneSlotRing, CircularProps.AdvanceAccounting and CircularProps.TryPutAdvanced |
| CircularSpec.TryPut | src/common/circular_buffer.cc:139-146 | try_put as written (no contract of its own): stated by CircularProps.TryPutKeepsReady, CircularProps.TryPutAdvanced and CircularProps.PushedPacketEmitted |
| Circular.CircularBuffer.constructor | src/common/circular_buffer.cc:10-24 | a buffer of `capacity` zero bytes and clear flags, all indices 0 |
| Circular.CircularBuffer.ZeroSpan | src/common/circular_buffer.cc:78-82 | the paired memsets clear `n` bytes and flags from `lo` |
| Circular.CircularBuffer.Reset | src/common/circular_buffer.cc:52-57 | reset(psize) leaves the state CircularSpec.Reset gives |
| Circular.CircularBuffer.ResetAt | src/common/circular_buffer.cc:59-62 | reset(psize, abs_head) leaves the state CircularSpec.ResetAt gives |
| Circular.CircularBuffer.DumpTail | src/common/circular_buffer.cc:64-85 | dump_tail writes the bytes CircularSpec.Emitted gives and leaves the state CircularSpec.DumpTail gives |
| Circular.CircularBuffer.Chunks | src/common/circular_buffer.cc:66-71 | the chunk lengths are those of CircularSpec.Chunks |
| Circular.CircularBuffer.ClearChunks | src/common/circular_buffer.cc:78-84 | the memsets and the tail move give CircularSpec.DumpTail |
| Circular.CircularBuffer.FillGap | src/common/circular_buffer.cc:87-98 | fill_gap leaves the state and the outcome (filled, assert fails, write out of bounds) of CircularSpec.FillGap |
| Circular.CircularBuffer.Restart | src/common/circular_buffer.cc:107-112 | the restart branch gives CircularSpec.Restart |
| Circular.CircularBuffer.Advance | src/common/circular_buffer.cc:113-136 | the advancing branch gives CircularSpec.Advance |
| Circular.CircularBuffer.PlaceAt | src/common/circular_buffer.cc:114-126 | clearing up to the write position and writing the payload gives CircularSpec.Place |
| Circular.CircularBuffer.ClearUpTo | src/common/circular_buffer.cc:116-124 | the zeroing from head to the write position, round the ring when it wraps, gives CircularSpec.Clear |
| Circular.CircularBuffer.TryPushHead | src/common/circular_buffer.cc:100-137 | try_push_head gives the state and outcome of CircularSpec.PushHead |
| Circular.CircularBuffer.TryPut | src/common/circular_buffer.cc:139-146 | try_put gives the state and outcome of CircularSpec.TryPut |
| Circular.CircularBuffer.CntUptoGap | src/common/circular_buffer.cc:148-157 | the do-while walk returns CircularSpec.CountUpToGap |
| Circular.CircularBuffer.MoveMarks | src/common/circular_buffer.cc:128-135 | the head moves one packet past the write position modulo the rounded capacity, the tail follows it exactly as CircularSpec.NewTail says, and nothing else changes |
| CircularProps.At | src/common/circular_buffer.cc:154 | the index `k` bytes past the tail is below the rounded capacity |
| CircularProps.SlotOf | src/common/circular_buffer.cc:88-95 | a held absolute offset maps to an index below the rounded capacity |
| CircularProps.ResetAtEmpties | src/common/circular_buffer.cc:52-62 | reset(psize, h) holds nothing, has abs_tail() == abs_head == byte0 == h, zero bytes and flags, and is ready |
| CircularProps.RestartOnlyInOneSlotRing | src/common/circular_buffer.cc:101-112 | the restart branch is reachable only when rounded_cap == psize, with the packet one packet past abs_head |
| CircularProps.ShapedLike | src/common/circular_buffer.cc:159-164 | a ring with aligned indices in the same rounded capacity is well shaped and range() is the tail-to-head span |
| CircularProps.AdvanceFields | src/common/circular_buffer.cc:106-135 | an advance sets abs_head to first_byte_num + psize, the head to `(head + offset + psize) mod rounded_cap` and the tail per the two jump conditions |
| CircularProps.AdvanceAccounting | src/common/circular_buffer.cc:106-135 | an advance keeps the buffer ready; a staying tail grows the range by offset plus psize with abs_tail() unchanged; a jump leaves all but one slot; abs_tail() never moves back |
| CircularProps.RestartAccounting | src/common/circular_buffer.cc:107-112 | the restart branch holds exactly the new packet at index 0, with abs_tail() == first_byte_num |
| CircularProps.FillGapKeepsIndices | src/common/circular_buffer.cc:87-98 | fill_gap changes only bytes and flags, and nothing on a failed check; a filled gap has room for the packet at the index the offset maps to, copies the packet there and sets that index's flag, and changes no other byte or flag |
| CircularProps.FillGapIdempotent | src/common/circular_buffer.cc:87-98 | after a filled gap the buffer is still ready with the same abs_tail(), and filling the same packet again is a fill that changes nothing |
| CircularProps.FillGapOnIndices | src/common/circular_buffer.cc:88-97 | fill_gap's outcome and the index it writes depend only on the indices, not on the bytes or flags held |
| CircularProps.TryPutKeepsReady | src/common/circular_buffer.cc:139-146 | try_put keeps the buffer ready, never moves abs_tail() or abs_head back, and leaves a dropped packet's state unchanged |
| CircularProps.EmittedInRingOrder | src/common/circular_buffer.cc:64-74 | dump_tail(n) writes the `n` bytes following the tail in ring order |
| CircularProps.DumpTailFields | src/common/circular_buffer.cc:78-84 | dump_tail clears what it wrote and moves the tail `n` round the ring; head and abs_head stay |
| CircularProps.AtAligned | src/common/circular_buffer.cc:84 | the index an aligned `n` past the tail is aligned and is `tail + n` reduced once |
| CircularProps.DumpTailAccounting | src/common/circular_buffer.cc:64-85 | dump_tail keeps the buffer ready; the range shrinks by `n` and abs_tail() grows by `n`, except in a one-slot ring whose head equals rounded_cap |
| CircularProps.PlaceWrites | src/common/circular_buffer.cc:125-126 | the payload is at the write position and its flag is set |
| CircularProps.HeadPacketHeld | src/common/circular_buffer.cc:125-135 | after an advance the new packet's offset is held and maps to its write position |
| CircularProps.AdvancedPacketHeld | src/common/circular_buffer.cc:114-135 | in a ring of more than one slot, an accepted packet is held afterwards: its offset is in [abs_tail(), abs_head) and its slot holds its bytes, flagged |
| CircularProps.HeldPacketEmitted | src/common/circular_buffer.cc:64-74 | dumping the whole range emits a held packet at its offset from abs_tail() |
| CircularProps.PushedPacketEmitted | src/common/circular_buffer.cc:139-146 | once try_put advances with a packet, dumping the whole range emits its bytes at its offset from abs_tail() |
| CircularProps.AdvancedRange | src/common/circular_buffer.cc:113-136 | after an advance the buffer is ready again; without a tail jump the range grows by the head offset plus one packet, with one it is the rounded capacity less one packet; abs_tail() never moves back |
| CircularProps.TryPutAdvanced | src/common/circular_buffer.cc:100-146 | try_put advances exactly for an aligned packet at or past abs_head whose offset is at most one packet and below the rounded capacity, and then leaves the state of the advancing branch |
| CircularProps.RunFromCovers | src/common/circular_buffer.cc:148-157 | the counted slots are occupied and fit in one turn; a walk that stops short stops at a free slot |
| CircularProps.CountUpToGapMeaning | src/common/circular_buffer.cc:148-157 | cnt_upto_gap() counts the occupied slots from the tail up to the first free one, at most a full ring |
| CircularSpec.RunFromNext | src/common/circular_buffer.cc:150-156 | one turn of the do-while from an occupied slot counts it, steps the index by psize modulo the rounded capacity, and meets the tail again exactly after a full turn |
| CircularProps.StepAt | src/receiver/rexmit_sender.cc:45 | a walk step of psize mod rounded_cap moves the index one packet further from the tail |
| CircularProps.AlignedSlot | src/sender/retransmitter.cc:50-55 | an aligned offset from the tail maps to an aligned index with room for a packet |
| CircularFix.FillGapRejectsHeldOffset | src/common/circular_buffer.cc:88-92 | with 0 < tail <= head an offset inside the held range is classified NONE and the assert fires |
| CircularFix.FillGapWritesOutsideSlot | src/common/circular_buffer.cc:93-97 | with the range wrapped, the packet at abs_tail() is written one slot off, outside the range, and dumping does not emit it |
| CircularFix.FillGapCorrected | src/common/circular_buffer.cc:87-98 | the intended fill writes an aligned held offset at the index it maps to; otherwise the assert fails |
| CircularFix.RangeAligned | src/common/circular_buffer.cc:159-164 | the held range is a whole number of packets |
| CircularFix.SlotRoom | src/common/circular_buffer.cc:93-96 | an aligned held offset maps to an aligned index with room for the packet, inside the range |
| CircularFix.FilledGapHeld | src/common/circular_buffer.cc:87-98 | a corrected fill keeps the indices and stores the packet at its slot |
| CircularFix.FilledGapEmitted | src/common/circular_buffer.cc:139-146 | after a corrected fill, dumping the whole range emits the packet at its offset |
| CircularFix.FillGapCorrectedIdempotent | src/common/circular_buffer.cc:87-98 | filling the same packet again changes nothing |
| CircularFix.TryPutCorrectedKeepsReady | src/common/circular_buffer.cc:139-146 | try_put with the corrected fill keeps the buffer ready and abs_tail() monotone |
| CyclicalSpec.Cyc.RoundedCap | src/utils/cyclical_buffer.cc:16-18 | `capacity / psize * psize` is a multiple of psize, at most the capacity, and at least psize when a packet fits |
| CyclicalSpec.Cyc.Range | src/utils/cyclical_buffer.cc:120-125 | range() is at most the rounded capacity |
| CyclicalSpec.SecondChunkFits | src/utils/cyclical_buffer.cc:50-55 | once the checks pass, the second chunk ends by the head |
| CyclicalSpec.WritePosRoom | src/utils/cyclical_buffer.cc:96 | the write position of an advance leaves room for a packet |
| CyclicalSpec.PopTail | src/utils/cyclical_buffer.cc:45-63 | pop_tail as written keeps the arrays at the capacity; its checks, copy and accounting are stated by CyclicalProps.PopAllowedIff, CyclicalProps.PopTailAccounting and CyclicalProps.PopTailCopiesFirstChunk |
| CyclicalSpec.PushHead | src/utils/cyclical_buffer.cc:85-118 | push_head as written keeps the arrays at the capacity; its effect is stated by CyclicalProps.RestartLayout, CyclicalProps.AdvanceShaped and CyclicalProps.AdvanceWrites |
| Cyclical.CyclicalBuffer.constructor | src/utils/cyclical_buffer.cc:9-14 | zero-initialised arrays, psize and indices 0 |
| Cyclical.CyclicalBuffer.ZeroSpan | src/utils/cyclical_buffer.cc:54-55 | the paired memsets clear `n` bytes and flags from `lo` |
| Cyclical.CyclicalBuffer.Reset | src/utils/cyclical_buffer.cc:38-43 | reset(psize) gives CyclicalSpec.Reset |
| Cyclical.CyclicalBuffer.Empty | src/utils/cyclical_buffer.cc:127-129 | empty() holds exactly when range() is 0 |
| Cyclical.CyclicalBuffer.SideOf | src/utils/cyclical_buffer.cc:25-36 | sideof(idx) returns the classification of the state value |
| Cyclical.CyclicalBuffer.PopTail | src/utils/cyclical_buffer.cc:45-63 | pop_tail gives the state, check outcome and copied bytes of CyclicalSpec.PopTail, copied to the start of `dst` |
| Cyclical.CyclicalBuffer.PopChecks | src/utils/cyclical_buffer.cc:46-53 | the ENSURE checks pass exactly when CyclicalSpec.PopAllowed holds, with the first chunk of CyclicalSpec.FirstChunk |
| Cyclical.CyclicalBuffer.PopChunks | src/utils/cyclical_buffer.cc:54-62 | the copies, memsets and tail move give CyclicalSpec.PopChunks |
| Cyclical.CyclicalBuffer.TakeFirst | src/utils/cyclical_buffer.cc:58-62 | the first chunk is copied to the start of `dst` as it stood, then its bytes and flags are cleared and the tail moves by `nbytes` modulo the rounded capacity |
| Cyclical.CyclicalBuffer.CopyOut | src/utils/cyclical_buffer.cc:58 | the first chunk from the tail is copied to the start of `dst` |
| Cyclical.CyclicalBuffer.ClearFirst | src/utils/cyclical_buffer.cc:59-62 | the first chunk is cleared and the tail moves `n` round the ring |
| Cyclical.CyclicalBuffer.PopPacket | src/utils/cyclical_buffer.cc:65-67 | pop_tail(dst) pops one packet, as CyclicalSpec.PopPacket gives |
| Cyclical.CyclicalBuffer.FillGap | src/utils/cyclical_buffer.cc:69-83 | fill_gap gives the state and outcome of CyclicalSpec.FillGap |
| Cyclical.CyclicalBuffer.Restart | src/utils/cyclical_buffer.cc:87-93 | the restart branch gives CyclicalSpec.Restart |
| Cyclical.CyclicalBuffer.ClearUpTo | src/utils/cyclical_buffer.cc:98-106 | the zeroing from head to the write position, round the ring when it wraps, gives CyclicalSpec.Clear |
| Cyclical.CyclicalBuffer.Advance | src/utils/cyclical_buffer.cc:96-117 | the advancing branch gives CyclicalSpec.Advance |
| Cyclical.CyclicalBuffer.MoveMarks | src/utils/cyclical_buffer.cc:110-117 | the head moves one packet past the write position modulo the rounded capacity, the tail follows it exactly as CyclicalSpec.NewTail says, and nothing else changes |
| Cyclical.CyclicalBuffer.PushHead | src/utils/cyclical_buffer.cc:85-118 | push_head gives the state and outcome of CyclicalSpec.PushHead |
| CyclicalProps.ResetEmpties | src/utils/cyclical_buffer.cc:38-43 | reset empties the ring, stores psize and zeroes every byte and flag |
| CyclicalProps.PopAllowedIff | src/utils/cyclical_buffer.cc:46-53 | the checks let through exactly the aligned non-zero `n` up to one byte past an unwrapped range, and the aligned `n` within a wrapped range |
| CyclicalProps.SideOfIsBetween | src/utils/cyclical_buffer.cc:25-36 | sideof and is_between of src/utils/buffer.cc agree on which cells are held |
| CyclicalProps.PopAllowedWithinRange | src/utils/cyclical_buffer.cc:46-49 | with packets of two bytes or more an allowed pop takes at most range() bytes |
| CyclicalProps.PopTailAccounting | src/utils/cyclical_buffer.cc:62 | a pop of at most range() bytes moves the tail `n` round the ring, keeps the head, and shrinks the range by `n` |
| CyclicalProps.PopTailCopiesFirstChunk | src/utils/cyclical_buffer.cc:50-58 | pop_tail copies only the first chunk, so a wrapped pop past the rounded capacity copies fewer than `n` bytes |
| CyclicalProps.PopTailLosesSecondChunk | src/utils/cyclical_buffer.cc:50-58 | a wrapped two-byte pop copies one byte and clears the other |
| CyclicalProps.PopTailOvershootsWithUnitPackets | src/utils/cyclical_buffer.cc:48-49 | with one-byte packets a pop one byte past the range passes the check and the tail overtakes the head |
| CyclicalProps.Pos | src/utils/cyclical_buffer.cc:62 | the index `k` bytes past the tail is below the rounded capacity |
| CyclicalProps.ChunksInOrder | src/utils/cyclical_buffer.cc:50-58 | the first chunk followed by the second reads the ring in order from the tail |
| CyclicalProps.ChunksCleared | src/utils/cyclical_buffer.cc:54-60 | clearing both chunks clears every index they cover |
| CyclicalProps.PopTailCorrectedCopiesRange | src/utils/cyclical_buffer.cc:45-63 | the corrected pop accepts exactly the aligned `n` within the range, copies the `n` bytes after the tail in ring order, clears them and moves the tail past them |
| CyclicalProps.FillGapIdempotent | src/utils/cyclical_buffer.cc:69-83 | fill_gap changes at most one packet's bytes and one flag, never the indices, and repeating it changes nothing |
| CyclicalProps.RestartLayout | src/utils/cyclical_buffer.cc:87-93 | the restart holds the packet at index 0, flagged, with the head one packet in and everything else zero |
| CyclicalProps.ShapedByFields | src/utils/cyclical_buffer.cc:110-117 | aligned indices inside the rounded capacity give a well-shaped ring |
| CyclicalProps.AdvanceShaped | src/utils/cyclical_buffer.cc:110-117 | an advance keeps the ring shaped; the new head is one packet past the write position, and the tail stays or sits one packet past the new head |
| CyclicalProps.AdvanceWrites | src/utils/cyclical_buffer.cc:107-108 | an advance stores the packet at the write position and flags it |
| RingHelpers.BufCpy | src/utils/buffer.cc:7-10 | bufcpy copies `src` to `buffer + pos` and returns the position just past it |
| RingHelpers.WriteChain | src/utils/buffer.cc:7-10 | chained bufcpy calls lay out the concatenation of their sources |
| RingHelpers.CyclicalCopyMeaning | src/utils/buffer.cc:32-44 | cyclical_memcpy puts source byte `k` at cell `(start + k) mod bsize` and leaves every other cell as it was |
| RingHelpers.CyclicalMemcpy | src/utils/buffer.cc:32-44 | the in-place copy gives RingHelpers.CyclicalCopy and returns `(start + nbytes) mod bsize` |
| RingHelpers.IsBetween | src/utils/buffer.cc:46-52 | is_between as written (no contract of its own): RingHelpers.IsBetweenBySpan states which cells it accepts |
| RingHelpers.IsBetweenBySpan | src/utils/buffer.cc:46-52 | is_between holds exactly for the cells no further from the tail, going round, than the head (head-inclusive) |
| RingHelpers.CyclicalWrite | src/utils/buffer.cc:12-30 | cyclical_write as written (no contract of its own): RingHelpers.CyclicalWriteWrappedFails and RingHelpers.CyclicalWriteWrappedExample state what it does on a wrapped range |
| RingHelpers.CyclicalWriteWrappedFails | src/utils/buffer.cc:19-27 | every wrapped write stops the program even when both writes succeed, after the right bytes went out |
| RingHelpers.CyclicalWriteWrappedExample | src/utils/buffer.cc:24-26 | two bytes from the last cell of a four-byte ring are written and then the check fails |
| RingHelpers.CyclicalWriteCorrectedEmits | src/utils/buffer.cc:12-30 | corrected, a write succeeds exactly when the writes do, emits the `n` bytes from `start` in ring order and returns the cell past them |
| Pending.LowerBound | src/receiver.cc:170 | lower_bound returns the first interval not below the key |
| Pending.InsertFacts | src/receiver.cc:181-183 | set insert keeps the order and adds exactly the new interval |
| Pending.InsertHolds | src/receiver.cc:229-230 | after insert a byte number is pending iff it was pending or lies in the inserted interval |
| Pending.EraseFacts | src/receiver.cc:179 | set erase keeps the order and removes exactly that interval |
| Pending.SplitIndex | src/receiver.cc:170-173 | the index split_pending settles on is within the set |
| Pending.SplitIndexFinds | src/receiver.cc:170-176 | in a tidy set the interval holding the packet, if any, is the one split_pending settles on |
| Pending.SplitPending | src/receiver.cc:169-185 | split_pending as written (no contract of its own): stated by Pending.SplitPendingUnheld, Pending.SplitPendingRemovesId and Pending.SplitPieces |
| Pending.SplitPendingUnheld | src/receiver.cc:176 | when no interval holds the packet the set is unchanged |
| Pending.SplitPendingRemovesId | src/receiver.cc:169-185 | split_pending removes exactly that packet from the pending packets and keeps the set sorted |
| Pending.SplitPieces | src/receiver.cc:181-184 | re-inserting the two halves of the split interval keeps the set sorted and holds exactly what the rest of the set holds plus the interval's packets other than the split one |
| Pending.RemovePending | src/receiver.cc:187-203 | remove_pending as written, None where it dereferences end() (no contract of its own): stated by Pending.RemovePendingFaults and Pending.RemovePendingEmptyFaults |
| Pending.RemovePendingFaults | src/receiver.cc:187-198 | remove_pending dereferences end() exactly when every interval ends before the bound |
| Pending.RemovePendingEmptyFaults | src/receiver.cc:188-196 | on an empty set remove_pending dereferences end() |
| Pending.RemovePendingCorrectedTrims | src/receiver.cc:187-203 | corrected, it agrees with the code wherever that does not fault, leaves no interval starting at or before the bound, and forgets exactly the packets up to the bound |
| RxSpec.FlushThreshold | src/receiver.cc:111-113 | the threshold is byte0 plus three quarters of the buffer, rounded down |
| RxSpec.WritePos | src/receiver.cc:211-240 | get_write_pos as written (no contract of its own): stated branch by branch by RxSpec.WritePosDismisses, RxSpec.WritePosFillsGap, RxSpec.WritePosRecordsSkipped and RxSpec.WritePosOverwrites |
| RxSpec.WritePosDismisses | src/receiver.cc:214-218 | a packet behind the tail or a whole buffer or more ahead of the head is dismissed and nothing changes |
| RxSpec.WritePosFillsGap | src/receiver.cc:236-239 | a packet between tail and head only splits the pending set and is written `fbn - abs_tail` bytes past the relative tail |
| RxSpec.WritePosRecordsSkipped | src/receiver.cc:219-235 | a normal advance moves the head past the packet, keeps the tail, and adds exactly the skipped packets to the pending set, which stays sorted |
| RxSpec.SkippedPending | src/receiver.cc:229-230 | the inserted interval holds exactly the packets from the old head up to the one before the new packet |
| RxSpec.GapOnGrid | src/receiver.cc:229-230 | between two packet starts on one grid an id lies before the later start exactly when it lies at or before the packet below it, and the gap holds at least one packet |
| RxSpec.WritePosOverwrites | src/receiver.cc:221-227 | an advance onto old data moves the tail by the head offset and faults exactly when remove_pending would dereference end() |
| RxSpec.WritePosInOrderStream | src/receiver.cc:211-240 | for packets arriving in order, a packet at the head takes the gap-fill branch, so the head moves only on every other packet and arrived packets are recorded as missing |
| RxSpec.WritePosOverwriteFaults | src/receiver.cc:221-227 | a retransmission that empties the pending set followed by an overwrite makes remove_pending fault |
| RxSpec.FlushRequestWhenFull | src/receiver.cc:296-303 | a flush is requested exactly when the head is more than three quarters of the buffer past the tail, or is byte 0 where `abs_head - 1` wraps; it covers tail to head |
| RxSpec.CopyAt | src/receiver.cc:294 | a copy that stays inside the ring keeps its size |
| RxSpec.CopyAtRing | src/receiver.cc:294 | with no offset and a start inside the ring the copy is cyclical_memcpy |
| RxSpec.Step | src/receiver.cc:268-303 | one pass of the receive loop (no contract of its own): stated by RxSpec.StepOldSession, RxSpec.StepNewSession and RxSpec.FlushRequestWhenFull |
| RxSpec.StepNewSession | src/receiver.cc:277-285 | a newer session restarts both ends at the packet, clears the pending set and zeroes the buffer, and its first packet lands at cell 0 |
| RxSpec.StepOldSession | src/receiver.cc:272-275 | a packet of an older session changes nothing |
| Rx.CyclicalMemcpyAt | src/receiver.cc:294 | the ring after the copy is CopyAt of the ring before it, or unchanged when the copy would leave the ring |
| Rx.Receiver.constructor | src/receiver.cc:243-259 | no session, a zeroed ring of `bsize` bytes |
| Rx.Receiver.GetWritePos | src/receiver.cc:211-240 | the new references and the position are those of WritePos on the old references |
| Rx.Receiver.Advance | src/receiver.cc:219-235 | the advancing branch leaves the references and position of RxSpec.Advanced, the branch WritePos takes for a packet less than a buffer ahead of the head; the session and flush request are unchanged |
| Rx.Receiver.Overwrite | src/receiver.cc:221-227 | the overwriting branch leaves the references, position and fault of RxSpec.Overwritten (remove_pending, then both ends moved by the head offset), leaving the session and flush request unchanged |
| Rx.Receiver.OnPacket | src/receiver.cc:268-303 | one pass of the loop takes the state and verdict to those of Step |
| LinearSpec.LinStep | receiver/receiver.cc:126-171 | one pass of the loop as written (no contract of its own): stated by LinearSpec.StepIgnoresOldSession, LinearSpec.StepAdmission and LinearSpec.StepHidesSingleLoss |
| LinearSpec.Restarted | receiver/receiver.cc:131-136 | a reset or a newer session restarts at the packet; otherwise the state is kept |
| LinearSpec.StepIgnoresOldSession | receiver/receiver.cc:126-129 | a packet of an older session changes nothing |
| LinearSpec.StepAdmission | receiver/receiver.cc:138-148 | the unsigned gap test admits a packet exactly when it is the expected one or one past it; a dropped packet only sets `reset`, an admitted one goes to Append |
| LinearSpec.Sub64Adjacent | receiver/receiver.cc:142 | the unsigned difference of packet numbers is at most one exactly when the packet is the expected one or the next |
| LinearSpec.StepRestartAdmits | receiver/receiver.cc:131-151 | the first packet of a restarted session is stored at offset 0 |
| LinearSpec.AppendFacts | receiver/receiver.cc:150-171 | an admitted packet overflows exactly when it does not fit, changing nothing; otherwise it is appended after the packets held, the rest of the buffer is kept, and a flush hands over every packet held, exactly when `reset` is set |
| LinearSpec.AppendNotGap | receiver/receiver.cc:150-171 | the append never reports a gap |
| LinearSpec.StepHidesSingleLoss | receiver/receiver.cc:138-151 | a packet one past the expected one is admitted and written one packet short of its own offset |
| LinearSpec.StepHidesSingleLossExample | receiver/receiver.cc:142 | four-byte packets 0 and 8 are stored back to back and packet 4 is never reported |
| LinearSpec.StepCorrectedPlaces | receiver/receiver.cc:138-151 | with the exact gap test every admitted packet lands at its own offset and every other packet is dropped |
| Linear.LinearReceiver.constructor | receiver/receiver.cc:107-111 | no session, `reset` set, a buffer of `bsize` bytes |
| Linear.LinearReceiver.OnPacket | receiver/receiver.cc:121-172 | one pass of the loop agrees with LinStep |
| Linear.LinearReceiver.Admit | receiver/receiver.cc:138-171 | once the session is settled, the pass agrees with LinStep |
| Linear.LinearReceiver.Store | receiver/receiver.cc:150-171 | the copy into the stack buffer and the flush test agree with Append |
| Datagram.PrefixesHaveNoSpace | src/common/datagram.cc:47-51 | neither prefix holds the field separator, so `find` stops right after it |
| Datagram.SplitAtPrefix | src/common/datagram.cc:101-105 | text that starts with a prefix and a space has its first space at the prefix length |
| Datagram.ParseLookupRequest | src/common/datagram.cc:30-33 | a lookup request is accepted exactly when it is the prefix, with or without one trailing newline |
| Datagram.LookupRequestToStr | src/common/datagram.cc:35-37 | what to_str writes ends in a newline and is accepted |
| Datagram.ParseLookupReply | src/common/datagram.cc:43-77 | an accepted reply has a space-free multicast address that get_mcast_addr accepts and a valid name |
| Datagram.ReplyAddress | src/common/datagram.cc:54-59 | the same facts for the text after the prefix |
| Datagram.ReplyPortAndName | src/common/datagram.cc:61-76 | an accepted rest keeps the address read before, a valid name and a port get_mcast_addr accepts |
| Datagram.ReplyName | src/common/datagram.cc:73-76 | the name is accepted exactly when it is valid, and the reply holds the three fields |
| Datagram.LookupReplyRoundTrip | src/common/datagram.cc:82-88 | every reply with a space-free, multicast address and a valid name reads back as itself from what to_str writes |
| Datagram.ReplyAddressRoundTrip | src/common/datagram.cc:54-59 | the fields after the prefix, written as to_str writes them, reach the name check with the address, the port and everything after the port's space as the name |
| Datagram.ParseBody | src/common/datagram.cc:43-77 | any text that trims to a reply's fields reaches the name check with those fields |
| Datagram.TrailingBytesRejected | src/common/datagram.cc:43-77 | what to_str writes followed by any further bytes is rejected: the name then holds a newline |
| Datagram.ReplyPortRoundTrip | src/common/datagram.cc:61-71 | the decimal port written by to_str reads back through stoul |
| Datagram.FirstField | src/common/datagram.cc:55-59 | a space-free first field is read up to the space after it, and the rest follows |
| Datagram.DecimalHasNoSpace | src/common/datagram.cc:86 | a port written in decimal holds no field separator |
| Datagram.PacketIdsMeaning | src/common/datagram.cc:111-115 | the loop accepts its tokens exactly when each is an id token, and then collects their values in order |
| Datagram.PacketIdsAccepts | src/common/datagram.cc:111-115 | the loop succeeds exactly when every token is an id token |
| Datagram.PacketIdsValues | src/common/datagram.cc:111-115 | on id tokens the loop collects one id per token, the i-th being the value of the i-th token |
| Datagram.PacketIdsSnoc | src/common/datagram.cc:111-115 | one more token appends its value or stops the loop with the error the code throws |
| Datagram.PacketIdsStopsAtError | src/common/datagram.cc:112-113 | after an error, later tokens are not looked at |
| Datagram.ParseRexmitRequest | src/common/datagram.cc:92-116 | the RexmitRequest constructor (no contract of its own): stated by Datagram.RexmitRequestAccepts and Datagram.RexmitRequestRoundTrip |
| Datagram.ParseRexmitRequestLoop | src/common/datagram.cc:92-116 | the constructor, written as its checks and loop, agrees with ParseRexmitRequest |
| Datagram.ReadPacketIds | src/common/datagram.cc:109-115 | the getline loop agrees with PacketIds over the comma-separated tokens |
| Datagram.PrefixTest | src/common/datagram.cc:101-105 | the two prefix checks hold exactly when the text starts with the prefix and a space |
| Datagram.RexmitRequestAccepts | src/common/datagram.cc:92-116 | a request is accepted exactly when its last character is a digit or a space, it starts with the prefix and a space, and every token is an id token; the ids are the token values in order |
| Datagram.RexmitRequestShape | src/common/datagram.cc:95-115 | only text with an accepted last character and the prefix gets past the checks, and such text is accepted exactly when the loop accepts its tokens, with the ids the loop reads |
| Datagram.RexmitRequestToStrLoop | src/common/datagram.cc:128-141 | the writing loop agrees with RexmitRequestToStr |
| Datagram.PacketIdsOfDecimals | src/common/datagram.cc:111-115 | tokens that are decimal 64-bit ids read back as those ids |
| Datagram.RexmitRequestRoundTrip | src/common/datagram.cc:92-141 | every list of 64-bit ids, the empty one included, reads back from what to_str writes |
| Datagram.NewAudioPacket | src/common/datagram.cc:156-167 | the sending constructor builds the frame of the session id, the first byte number and the payload |
| Datagram.FrameLayout | src/common/datagram.cc:161-166 | on either host the frame is both header words in network order, then the payload |
| Datagram.ReceivedFields | src/common/datagram.cc:146-153 | the receiving constructor reads both header words as network-order numbers and keeps the payload after them |
| Datagram.AudioPacketRoundTrip | src/common/datagram.cc:146-167 | a frame built on one host and received on any host gives back the same fields and payload |
| Datagram.BytesOfBigEndianValue | src/common/datagram.cc:162-165 | reading a network-order word gives back its value |
| Text.DigitChar | src/common/datagram.cc:86 | each digit value has a digit character |
| Text.Decimal | src/common/datagram.cc:86 | the decimal form of a number is non-empty and all digits |
| Text.DecimalValue | src/common/datagram.cc:135-137 | reading the decimal form back gives the number, with no leading zero |
| Text.DigitRun | src/common/datagram.cc:65 | the digit run is the longest all-digit prefix |
| Text.DigitRunAll | src/common/datagram.cc:65 | on an all-digit string the run is the whole string |
| Text.SpaceRun | src/common/datagram.cc:65 | the leading white space stops at a non-space |
| Text.Stoul | src/common/datagram.cc:65 | an accepted number fits in 64 bits |
| Text.StoulDecimal | src/common/datagram.cc:65 | stoul of the decimal form of a 64-bit number gives it back |
| Text.StoulNumeric | src/common/datagram.cc:114 | on an all-digit token stoull fails exactly when it is empty or too large, and otherwise gives its value |
| Text.Find | src/common/datagram.cc:47 | find gives the first index of the character, or none exactly when it is absent |
| Text.Getline | src/common/datagram.cc:111 | one getline takes the first token and leaves a shorter text |
| Text.JoinedSnoc | src/common/datagram.cc:134-137 | writing one more id appends the separator and its digits |
| Text.JoinedEndsInDigit | src/common/datagram.cc:134-137 | ids written with separators end in a digit |
| Text.Tokens | src/common/datagram.cc:109-115 | the tokens the getline loop reads (no contract of its own): stated by Text.TokensOfJoined, Text.TokenThenRest and Text.NoSeparator |
| Text.TokensOfJoined | src/common/datagram.cc:111-115 | reading back ids written with a non-digit separator gives one token per id, its decimal form |
| Text.TokenThenRest | src/common/datagram.cc:111 | a token free of the separator followed by the separator is read as that token, then the rest is read as before |
| Text.NoSeparator | src/common/datagram.cc:111 | an all-digit text is one token |
| Text.FindAfter | src/common/datagram.cc:47 | find looks past a prefix that lacks the character |
| Text.Trimmed | src/common/datagram.cc:17-21 | trimmed removes one trailing newline and nothing else |
| AudioHeaders.GetSessionId | src/utils/audio_packet.cc:4-6 | the session id is the first header word read in network order |
| AudioHeaders.GetFirstByteNum | src/utils/audio_packet.cc:8-10 | the first byte number is the second header word read in network order |
| AudioHeaders.GetAudioData | src/utils/audio_packet.cc:12-14 | the payload starts past both header words |
| AudioHeaders.AccessorsAgreeWithAudioPacket | src/utils/audio_packet.cc:4-14 | the accessors agree with the receiving AudioPacket constructor |
| AudioHeaders.AccessorsReadFrame | src/utils/audio_packet.cc:4-14 | on a frame built on any host the accessors give back the fields and the payload |
| Net.Equal | src/common/net.cc:7-11 | operator== (no contract of its own): Net.EqualIsIdentity states that it is equality of the modelled fields |
| Net.Less | src/common/net.cc:17-21 | operator< as written (no contract of its own): Net.LessNotAsymmetric shows it is not a strict weak order |
| Net.EqualIsIdentity | src/common/net.cc:7-15 | operator== compares every field, and operator!= is its negation |
| Net.LessNotAsymmetric | src/common/net.cc:17-21 | with a smaller address but a larger port, each address is below the other |
| Net.LessNotAsymmetricExample | src/common/net.cc:17-21 | the smallest such pair |
| Net.LessCorrectedIsStrictWeakOrder | src/common/net.cc:17-21 | the corrected comparison is irreflexive, asymmetric and transitive, and its equivalence is equal address and port |
| Net.GetMcastAddrMeaning | src/common/net.cc:42-50 | get_mcast_addr succeeds exactly on addresses that parse and lie in 224.0.0.0/4, with the port in network order |
| Station.IsValidName | src/common/radio_station.cc:42-46 | is_valid_name (no contract of its own): Station.ValidNameIsOneLine and Station.ValidNameExamples state what it accepts |
| Station.NewStation | src/common/radio_station.cc:11-26 | the RadioStation constructor (no contract of its own): Station.NewStationFields states it |
| Station.Cmp | src/common/radio_station.cc:38-40 | cmp, the lexicographic order on name, multicast and data address (no contract of its own): Station.CmpNotAsymmetric shows it inherits the flaw of operator< |
| Station.PrintableAt | src/common/radio_station.cc:45 | each character of a valid name is between 32 and 127 |
| Station.ValidNameIsOneLine | src/common/radio_station.cc:42-46 | a valid name holds no newline and its length is between 1 and the maximum |
| Station.ValidNameExamples | src/common/radio_station.cc:42-46 | inner spaces and DEL are allowed; empty names, edge spaces and newlines are not |
| Station.NewStationFields | src/common/radio_station.cc:11-26 | the constructor fails exactly on an invalid name; the data address is the control address with the announced port in network order |
| Station.Refresh | src/common/radio_station.cc:28-30 | update_last_reply changes only the time, so the station stays equal and equivalent to itself |
| Station.SameIgnoresControlAndTime | src/common/radio_station.cc:32-36 | operator== compares the name, the multicast address and the data address only |
| Station.StrLessIrreflexive | src/common/radio_station.cc:38-40 | no name compares below itself |
| Station.CmpNotAsymmetric | src/common/radio_station.cc:38-40 | cmp inherits the defect of operator<: two stations can each compare below the other |
| StationSet.StrLessTotal | src/common/radio_station.cc:38-40 | names are equivalent under the string order exactly when equal |
| StationSet.EquivalentIsSame | src/common/radio_station.cc:32-40 | for addresses of one family, cmp-equivalence is operator== |
| StationSet.Find | src/receiver/lookup_receiver.cc:73 | find gives the first equivalent element, or none exactly when there is none |
| StationSet.InsertPos | src/receiver/lookup_receiver.cc:81 | insert places the element before the first element it orders below |
| StationSet.InsertKeeps | src/receiver/lookup_receiver.cc:81 | insert keeps every element, places the new one at InsertPos, and keeps the iterator on its element |
| StationSet.EraseKeeps | src/receiver/station_remover.cc:31 | erase removes exactly that element and keeps the rest in order; an iterator on it dangles, any other keeps its element |
| StationSet.Stations.constructor | src/receiver/lookup_receiver.cc:72-87 | an empty set with the iterator at end() |
| StationSet.Stations.Insert | src/receiver/lookup_receiver.cc:81 | the state becomes Inserted of the old state, and the new element is at the returned position |
| StationSet.Stations.Erase | src/receiver/station_remover.cc:31 | the state becomes Erased of the old state |
| StationSet.Stations.Touch | src/receiver/lookup_receiver.cc:76 | only the touched station's reply time changes |
| AudioPrinter.PrintRound | src/receiver/audio_printer.cc:24-30 | a dump covers the whole held range, a whole number of packets |
| AudioPrinter.PrintRoundMeaning | src/receiver/audio_printer.cc:24-30 | a round dumps exactly when the slots counted from the tail cover the range, and otherwise reports a loss at a free slot or past the range |
| AudioPrinter.DumpedRoundEmptiesBuffer | src/receiver/audio_printer.cc:24-26 | a dump writes the held range in ring order and leaves the buffer empty with the tail at the old head |
| AudioPrinter.AdvancedPacketPrinted | src/receiver/audio_printer.cc:24-26 | a packet that advanced the head is written out at its offset by the next round that dumps |
| AudioPrinter.AudioPrinterWorker.constructor | src/receiver/audio_printer.cc:7-15 | nothing written, nothing signalled, `_wait` given |
| AudioPrinter.AudioPrinterWorker.Signal | src/receiver/audio_printer.cc:37-40 | signal clears `_wait` and changes nothing else |
| AudioPrinter.AudioPrinterWorker.Round | src/receiver/audio_printer.cc:18-33 | a round stops when not running; otherwise it dumps or signals a loss as PrintRound says and sets `_wait` |
| AudioReceiver.Receive | src/receiver/audio_receiver.cc:84-116 | lines 84-116 as written for one decoded packet (no contract of its own): stated by AudioReceiver.ReceiveCases and AudioReceiver.OversizedSessionStarts |
| AudioReceiver.DeliverKeeps | src/receiver/audio_receiver.cc:109-116 | try_put keeps the packet size, capacity and byte0, and has_printed records the signal |
| AudioReceiver.ReceiveCases | src/receiver/audio_receiver.cc:84-116 | each packet case: older session ignored, oversized buffer drops the session, newer session restarts, late packet ignored, stored packet signals the printer exactly when it has started or the threshold is reached |
| AudioReceiver.PrintingStaysOn | src/receiver/audio_receiver.cc:111-116 | once printing has started, every stored packet signals the printer |
| AudioReceiver.OversizedSessionStarts | src/receiver/audio_receiver.cc:89-101 | a first packet larger than the capacity makes its session current with an unusable buffer |
| AudioReceiver.ReceiveCorrectedKeepsInv | src/receiver/audio_receiver.cc:84-116 | with the size test on the packet, every step keeps the buffer usable |
| AudioReceiver.StoredPacketPrinted | src/receiver/audio_receiver.cc:109-116 | a packet that advances the head is written out at its offset by the next round that dumps |
| AudioReceiver.DeliverStored | src/receiver/audio_receiver.cc:105-111 | a packet that is stored went through try_put with its first psize bytes, into a ready buffer, and the verdict and new buffer are try_put's |
| AudioReceiver.AudioReceiverWorker.constructor | src/receiver/audio_receiver.cc:17-31 | no session and nothing printed |
| AudioReceiver.AudioReceiverWorker.HandleEvent | src/receiver/audio_receiver.cc:65-77 | SIG_INT while not running stops; PACKET_LOSS and STATION_CHANGE forget the session, and STATION_CHANGE resubscribes |
| AudioReceiver.AudioReceiverWorker.HandlePacket | src/receiver/audio_receiver.cc:79-116 | the state and verdict are those of Receive, and the printer is signalled exactly when Receive says so |
| LookupReceiver.OnStation | src/receiver/lookup_receiver.cc:72-87 | one well-formed station (no contract of its own): stated by LookupReceiver.KnownStationRefreshed, LookupReceiver.NewStationAnnounced and LookupReceiver.OnStationKeepsValid |
| LookupReceiver.OnDatagram | src/receiver/lookup_receiver.cc:69-91 | the text of one reply (no contract of its own): stated by LookupReceiver.MalformedReplyIgnored and LookupReceiver.ParsedReplyMakesStation |
| LookupReceiver.Received | src/common/udp_socket.cc:108-114 | recvfrom into a buffer: the datagram's bytes, as many as fit, replace the buffer's first bytes, and every later byte is left as it was |
| LookupReceiver.CString | src/receiver/lookup_receiver.cc:69 | a char buffer read as a C string: the characters before its first NUL, or nothing when no byte is NUL (the read would run past the buffer) |
| LookupReceiver.CStringIs | src/receiver/lookup_receiver.cc:69 | a buffer whose first NUL is at index `k` reads as its first `k` characters |
| LookupReceiver.NulFreeThenNone | src/receiver/lookup_receiver.cc:69 | NUL-free text followed by a NUL-free tail has no terminator |
| LookupReceiver.NulFreeThenSome | src/receiver/lookup_receiver.cc:69 | NUL-free text followed by a tail that reads as `rest` reads as the text followed by `rest` |
| LookupReceiver.StaleBytesRead | src/receiver/lookup_receiver.cc:36-69 | a NUL-free datagram shorter than the buffer reads as itself followed by the old bytes after it, up to their first NUL, and has no terminator when they hold none |
| LookupReceiver.FirstReplyRead | src/receiver/lookup_receiver.cc:36-69 | into the zeroed buffer of line 36, a NUL-free datagram shorter than it reads back as itself |
| LookupReceiver.StaleAfterLonger | src/receiver/lookup_receiver.cc:36-69 | after a longer NUL-free datagram, a shorter one reads as itself followed by the rest of the longer one |
| LookupReceiver.ShorterReplyRejected | src/receiver/lookup_receiver.cc:68-90 | a well-formed reply received after a longer datagram reads with that datagram's trailing bytes and is rejected as malformed |
| LookupReceiver.CorrectedReadsDatagram | src/receiver/lookup_receiver.cc:68-69 | terminating the text at the byte count recvfrom returns always yields a string, and a NUL-free datagram of at most MTU bytes reads back as itself whatever the buffer held |
| LookupReceiver.CorrectedReplyParses | src/receiver/lookup_receiver.cc:68-70 | with that termination, every reply to_str writes for a valid station is read back as itself, whatever the buffer held before |
| LookupReceiver.KnownStationRefreshed | src/receiver/lookup_receiver.cc:73-76 | a known station only has its reply time renewed; nothing else changes and no event is pushed |
| LookupReceiver.NewStationAnnounced | src/receiver/lookup_receiver.cc:77-87 | a new station is always announced to the UI, and joins and becomes current exactly when the set was empty or the name is preferred |
| LookupReceiver.OnStationKeepsValid | src/receiver/lookup_receiver.cc:72-87 | every reply keeps the iterator valid |
| LookupReceiver.MalformedReplyIgnored | src/receiver/lookup_receiver.cc:88-90 | a malformed reply changes nothing |
| LookupReceiver.ParsedReplyMakesStation | src/receiver/lookup_receiver.cc:69-70 | a reply that parses always yields a station whose control address is the sender |
| LookupReceiver.LookupReceiverWorker.constructor | src/receiver/lookup_receiver.cc:14-36 | no events pushed yet, and a fresh reply buffer of MTU + 1 zero characters |
| LookupReceiver.LookupReceiverWorker.HandleEvent | src/receiver/lookup_receiver.cc:56-60 | only TERMINATE ends the loop |
| LookupReceiver.LookupReceiverWorker.HandleStation | src/receiver/lookup_receiver.cc:72-87 | the set and both queues become those of OnStation |
| LookupReceiver.LookupReceiverWorker.HandleDatagram | src/receiver/lookup_receiver.cc:64-91 | the datagram is received into the reused reply buffer, which then holds what Received gives; the text is that buffer read up to its first NUL; with no NUL (a datagram of MTU + 1 NUL-free bytes) the read runs past the buffer, reported as `overread`, and nothing else changes; otherwise the set and both queues become those of OnDatagram for that text |
| StationRemover.Live | src/receiver/station_remover.cc:27-34 | the surviving stations are not expired |
| StationRemover.FirstNamed | src/receiver/station_remover.cc:42-47 | the position is that of the first station with the name, or the size |
| StationRemover.Reelect | src/receiver/station_remover.cc:39-55 | the preferred station if present, the first of them, else begin(), else end() of an empty set; never dangling |
| StationRemover.LiveStep | src/receiver/station_remover.cc:27-34 | the survivors of a suffix, one station at a time |
| StationRemover.Sweep | src/receiver/station_remover.cc:27-34 | the removal loop as written (no contract of its own): stated by StationRemover.SweepKeepsLive, StationRemover.SweepKeepsCurrent and StationRemover.SweepLeavesDangling |
| StationRemover.SweepKeepsLive | src/receiver/station_remover.cc:27-34 | a tick keeps exactly the stations that have not expired, in set order |
| StationRemover.SweepCorrectedKeepsLive | src/receiver/station_remover.cc:27-34 | the corrected tick keeps the same stations |
| StationRemover.SweepKeepsCurrent | src/receiver/station_remover.cc:27-34 | a tick that does not expire the current station keeps the iterator on it |
| StationRemover.SweepLeavesDangling | src/receiver/station_remover.cc:29-31 | when the only station is current and expires, the set empties with the iterator dangling |
| StationRemover.SweepCorrectedKeepsValid | src/receiver/station_remover.cc:27-34 | erasing before re-electing keeps the iterator valid |
| StationRemover.StationRemoverWorker.constructor | src/receiver/station_remover.cc:10-20 | the set and the preference are those given |
| StationRemover.StationRemoverWorker.ResetCurrentStation | src/receiver/station_remover.cc:39-55 | the iterator becomes Reelect of the set; the set is kept |
| StationRemover.StationRemoverWorker.Tick | src/receiver/station_remover.cc:27-34 | one tick takes the set and iterator to Sweep of the old ones |
| StationRemover.FirstNamedIs | src/receiver/station_remover.cc:42-47 | the search stops at the first match |
| UiMenu.Dashes | src/receiver/ui_menu.cc:9 | the bar has the given length and no newline |
| UiMenu.MoveUp | src/receiver/ui_menu.cc:138-147 | a move up lands on a station of the set |
| UiMenu.MoveDown | src/receiver/ui_menu.cc:149-158 | a move down lands on a station of the set |
| UiMenu.MovesInverse | src/receiver/ui_menu.cc:138-158 | one step up from a station is undone by one step down, and the other way round |
| UiMenu.MovesMeaning | src/receiver/ui_menu.cc:138-158 | up moves exactly when the iterator is not begin(), and from end() goes to the last station; down moves exactly from a station other than the last; the undefined cases are exactly the dangling iterator, and for down an empty set or end() |
| UiMenu.ApplyCmd | src/receiver/ui_menu.cc:131-136 | a command is rejected with "Unknown command" exactly when it is neither arrow key |
| UiMenu.Rows | src/receiver/ui_menu.cc:87-91 | one row per station in set order, highlighted exactly for the current one |
| UiMenu.MenuToStr | src/receiver/ui_menu.cc:81-94 | menu_to_str (no contract of its own): UiMenu.MenuLines states the lines it writes |
| UiMenu.TokensOfTerminated | src/receiver/ui_menu.cc:81-94 | newline-terminated lines followed by a last line read back as those lines |
| UiMenu.MenuLines | src/receiver/ui_menu.cc:81-94 | the menu is the bar, the program name and the bar, one line per station in set order with only the current one prefixed, then the bar |
| UiMenu.MenuLinesFrom | src/receiver/ui_menu.cc:81-94 | the lines of the menu text are the header lines, one row per station in set order, and the closing bar |
| UiMenu.UiMenuWorker.constructor | src/receiver/ui_menu.cc:13-32 | no events pushed and nothing sent yet |
| UiMenu.UiMenuWorker.Broadcast | src/receiver/ui_menu.cc:103-108 | every client is sent the current menu |
| UiMenu.UiMenuWorker.CmdMoveUp | src/receiver/ui_menu.cc:138-147 | the iterator moves as MoveUp says, CURRENT_STATION_CHANGED is pushed exactly when it moves, and the menu is sent |
| UiMenu.UiMenuWorker.CmdMoveDown | src/receiver/ui_menu.cc:149-158 | the iterator moves as MoveDown says, CURRENT_STATION_CHANGED is pushed exactly when it moves, and the menu is sent |
| UiMenu.UiMenuWorker.ApplyCommand | src/receiver/ui_menu.cc:131-136 | an unknown command is an error that changes nothing; an arrow key runs its move |
| UiMenu.UiMenuWorker.HandleEvent | src/receiver/ui_menu.cc:50-58 | TERMINATE ends the loop; STATION_ADDED, STATION_REMOVED and CURRENT_STATION_CHANGED send the menu |
| TcpClientHandler.TcpClientHandlerWorker.constructor | src/receiver/tcp_client_handler.cc:13-32 | no events set and nothing sent yet |
| TcpClientHandler.TcpClientHandlerWorker.Broadcast | src/receiver/tcp_client_handler.cc:103-108 | every client is sent the current menu |
| TcpClientHandler.TcpClientHandlerWorker.CmdMoveUp | src/receiver/tcp_client_handler.cc:138-147 | the iterator moves as MoveUp says, STATION_CHANGE is set exactly when it moves, and the menu is sent |
| TcpClientHandler.TcpClientHandlerWorker.CmdMoveDown | src/receiver/tcp_client_handler.cc:149-158 | the iterator moves as MoveDown says, STATION_CHANGE is set exactly when it moves, and the menu is sent |
| TcpClientHandler.TcpClientHandlerWorker.ApplyCommand | src/receiver/tcp_client_handler.cc:131-136 | an unknown command is an error that changes nothing; an arrow key runs its move |
| TcpClientHandler.TcpClientHandlerWorker.HandleEvent | src/receiver/tcp_client_handler.cc:51-57 | SIG_INT ends the loop; STATION_CHANGE sends the menu |
| RexmitSender.HolesMeaning | src/receiver/rexmit_sender.cc:41-47 | the holes are exactly the aligned offsets of the held range whose slot is free |
| RexmitSender.HolesIncreasing | src/receiver/rexmit_sender.cc:41-47 | the holes are in increasing order |
| RexmitSender.IdsAsWritten | src/receiver/rexmit_sender.cc:44 | one id per hole, the ring index plus abs_tail() |
| RexmitSender.IdsCorrected | src/receiver/rexmit_sender.cc:44 | one id per hole |
| RexmitSender.IdsCorrectedAt | src/receiver/rexmit_sender.cc:44 | each corrected id is its hole's offset plus abs_tail() |
| RexmitSender.WalkMeetsHead | src/receiver/rexmit_sender.cc:42-45 | the walk from the tail meets the head exactly after range() bytes, unless the head is at rounded_cap() |
| RexmitSender.Order | src/receiver/rexmit_sender.cc:29-64 | order_retransmission as written (no contract of its own): stated by RexmitSender.IdsAsWritten, RexmitSender.RequestsWrongIdsExample and RexmitSender.CorrectedRequestsMissing |
| RexmitSender.CorrectedRequestsMissing | src/receiver/rexmit_sender.cc:29-63 | corrected, the request asks for exactly the aligned packets in [abs_tail(), abs_head()) whose slot is free, in increasing order |
| RexmitSender.CorrectedIdSound | src/receiver/rexmit_sender.cc:38-46 | every corrected id is an aligned offset of the held range whose slot is free |
| RexmitSender.CorrectedIdComplete | src/receiver/rexmit_sender.cc:38-46 | every aligned offset of the held range whose slot is free is a corrected id |
| RexmitSender.CorrectedIdsIncreasing | src/receiver/rexmit_sender.cc:38-46 | the corrected ids are in increasing order |
| RexmitSender.RequestsWrongIdsExample | src/receiver/rexmit_sender.cc:44 | as written, a hole at packet 8 is requested as packet 10, abs_head() |
| RexmitSender.RexmitSenderWorker.constructor | src/receiver/rexmit_sender.cc:10-22 | nothing sent yet |
| RexmitSender.RexmitSenderWorker.Scan | src/receiver/rexmit_sender.cc:38-47 | the scan gathers the as-written ids of every hole from the tail to the head |
| RexmitSender.RexmitSenderWorker.OrderRetransmission | src/receiver/rexmit_sender.cc:29-63 | the verdict is that of Order, and a request for the gathered ids goes to the current station's control address exactly when there are any |
| RexmitSender.ScanStep | src/receiver/rexmit_sender.cc:42-46 | one packet step of the walk adds the hole it finds and moves the index one packet round the ring |
| Retransmitter.InsertSortedKeeps | src/sender/retransmitter.cc:36 | inserting into a sorted list keeps it sorted and adds exactly the element |
| Retransmitter.HeadBelowRest | src/sender/retransmitter.cc:36 | the head of a sorted list is no greater than any element of its tail with a larger element inserted |
| Retransmitter.SortAscMeaning | src/sender/retransmitter.cc:36 | std::sort orders the ids and keeps each as often as it was requested |
| Retransmitter.SkipBelow | src/sender/retransmitter.cc:38-41 | the position of the first id not below abs_tail() |
| Retransmitter.SkipBelowIs | src/sender/retransmitter.cc:38-41 | that position is the only one with this property |
| Retransmitter.Skip | src/sender/retransmitter.cc:38-41 | the skip loop stops at SkipBelow |
| Retransmitter.GridStep | src/sender/retransmitter.cc:49 | one packet step from a cached packet number below abs_head() stays on the cache's packet grid |
| Retransmitter.Catch | src/sender/retransmitter.cc:48-51 | the walk only moves forward and stays on the packet grid |
| Retransmitter.CatchMeaning | src/sender/retransmitter.cc:48-51 | the walk stops at abs_head() or at the first number not below the id, passing only numbers below it |
| Retransmitter.Walk | src/sender/retransmitter.cc:48-51 | the loop moves the packet number and the cache index together and ends where Catch says |
| Retransmitter.SentFrom | src/sender/retransmitter.cc:47-57 | every number sent lies on the packet grid at or after the starting position |
| Retransmitter.AsWrittenSendsOnlyHead | src/sender/retransmitter.cc:52-53 | as written, every datagram carries abs_head(), a packet the cache does not hold |
| Retransmitter.CachedPacketNotResentExample | src/sender/retransmitter.cc:31-58 | as written, a request for the one cached packet sends nothing; corrected, it sends that packet |
| Retransmitter.CorrectedSendsRequested | src/sender/retransmitter.cc:47-57 | corrected, every requested cached packet after the start is sent, and only cached packets are sent |
| Retransmitter.SortedFrom | src/sender/retransmitter.cc:36-41 | the sorted ids from the first one at or after the tail are sorted and are exactly the requested ids at or after the tail |
| Retransmitter.CorrectedResendsCached | src/sender/retransmitter.cc:31-58 | corrected, the handler resends every requested packet the cache holds, only cached packets, and only requested ones when the ids are packet boundaries |
| Retransmitter.SentAreRequested | src/sender/retransmitter.cc:47-57 | corrected, with ids on packet boundaries every number sent was requested |
| Retransmitter.CatchAligned | src/sender/retransmitter.cc:48-51 | the walk towards an id on a packet boundary stops on the id itself or at abs_head() |
| Retransmitter.SortedRest | src/sender/retransmitter.cc:47 | the ids after the first are sorted and not below it |
| Retransmitter.Slot | src/sender/retransmitter.cc:55 | the payload copied is `psize` bytes |
| Retransmitter.Frames | src/sender/retransmitter.cc:54-56 | one datagram per number sent |
| Retransmitter.FrameAt | src/sender/retransmitter.cc:54-56 | the datagram built from the cache index is the frame of that packet number and heads the rest |
| Retransmitter.CorrectedFrameDecodes | src/sender/retransmitter.cc:32-33 | with both header words in network order a resent datagram decodes on any host to the session, the packet number and its cached bytes |
| Retransmitter.HostOrderHeaderExample | src/sender/retransmitter.cc:33 | as written, on little-endian hosts session 1 reads back as 2^56 |
| Retransmitter.Resend | src/sender/retransmitter.cc:31-58 | the datagrams sent for one request are Replies of the request on the cache state |
| Retransmitter.ResendFrom | src/sender/retransmitter.cc:47-57 | the for loop sends the frames of SentFrom, in order |
| Retransmitter.ResendOne | src/sender/retransmitter.cc:47-57 | one turn either ends the loop, when nothing more is sent, or sends the frame of the packet the walk reached |
| Retransmitter.RetransmitterWorker.constructor | src/sender/retransmitter.cc:15-29 | no jobs and nothing sent |
| Retransmitter.RetransmitterWorker.HandleRetransmission | src/sender/retransmitter.cc:31-58 | the datagrams sent are Replies of the request on the cache state |
| Retransmitter.RetransmitterWorker.HandleEvent | src/sender/retransmitter.cc:73-97 | TERMINATE ends the loop; NEW_JOBS handles and pops every queued job in order; other events change nothing |

## Left out

- Sockets, threads, mutexes, condition variables and the flusher thread of src/receiver.cc are not modelled. Each worker step is one single-threaded method, and a lock is read as one state value.
- Sends, writes to standard output and event pushes are appended to sequences. An event pipe is a sequence of events. The pipe's use of STDOUT_FILENO in event_pipe.cc is not part of this model.
- Clocks and sleeps are left out. The station remover takes `now` as a parameter and reads it once per tick. The sleep_until rate limits of the retransmitter and the requester are not modelled.
- Logging, `print_pending` (src/receiver.cc:205-209) and the MISSING lines of receiver/receiver.cc:143-145 only write to standard error, and are left out.
- `inet_pton` is an abstract parameter `pton`. `get_addr` (getaddrinfo) is a parameter `getAddr`.
- C `assert`, undefined behaviour and dereferencing `end()` are explicit failure outcomes. Examples are BadIterator, `fault`, OverRead and `ok == false`. They are not modelled further.
- `CircularBuffer::empty()` is called by the requester but not declared in src/common/circular_buffer.cc. It is modelled as `tail == head`.
- The requester's scan never ends when `head == rounded_cap()`, which the hard-reset branch of try_push_head produces. The model reports this as the Spins verdict and does not loop.
- `ui::keys` and `HIGHLIGHT` are not defined in the visible source. The keys are the UP and DOWN sequences of src/receiver/ui.hh, and the highlight is the parameter `mark`.
- A dangling cursor in `menu_to_str` highlights nothing.
- src/receiver/ui_menu.hh is older than ui_menu.cc; the .cc is modelled.
- The printer's `_wait` is uninitialised in the source; its first value is a constructor parameter.
- audio_receiver.cc uses an EventPipe although its header declares an EventQueue. The pipe's events are modelled.
- lookup_receiver.cc calls a four-argument RadioStation constructor that radio_station.cc does not define. The model builds the station from the reply fields as that call does.
- `std::set` is modelled as a sequence ordered by `cmp`, with a cursor. `std::sort` is modelled as a sorted copy (SortAsc), not as an in-place sort.
- Retransmitter.RetransmitterWorker.HandleRetransmission: the datagrams of one request are gathered by Resend and then appended, rather than sent one at a time. The `default: break` after NEW_JOBS is a harmless fall-through.
- Retransmitter.Word: the packet number in a header is taken modulo 2^64. The wrap-around of `cache_packet_num` itself is not modelled, because it stays below `abs_head()`.
- Retransmitter.CorrectedResendsCached: "only requested packets" is proved only for ids on packet boundaries. An id off the packet grid makes the corrected loop send the next cached packet.
- AudioReceiver: the model starts from a decoded packet. read_packet throws "Malformed packet" for a datagram shorter than the 16-byte header (src/receiver/audio_receiver.cc:35-37), and the catch of lines 117-118 drops it with no change of state; that path is not modelled. The OverRead outcome is a different case: a payload shorter than the buffer's current packet size, which try_put would copy past. Wrap-around of the first byte number is not modelled.
- RxSpec.WritePos: no corrected get_write_pos is modelled. RxSpec.WritePosInOrderStream shows that the `>` of src/receiver.cc:216 sends a packet at abs_head to the gap-fill branch. Changing it to `>=` alone sends that packet to the overwrite branch instead, because is_between counts the head as held, and remove_pending then faults on an empty set. The intended repair would change more than that comparison.
- Arith.Add64, Arith.Sub64: 64-bit wrap-around is modelled only where the code compares a wrapped result (the unsigned gap test of receiver/receiver.cc:142 and the interval bounds of src/receiver.cc). Elsewhere offsets are unbounded naturals.

## Findings

| source | as written | input that shows it | evidently intended | confidence | as-written member | corrected member |
|---|---|---|---|---|---|---|
| src/common/circular_buffer.cc:87-98 | fill_gap passes the offset past the tail to sideof, which expects a ring index | a held packet whose offset is not a held index, e.g. tail > 0 | classify the packet's ring index | not executed | CircularFix.FillGapRejectsHeldOffset, CircularFix.FillGapWritesOutsideSlot | CircularFix.FillGapCorrected, CircularFix.FilledGapEmitted |
| src/utils/cyclical_buffer.cc:50-58 | pop_tail copies only the first chunk of a wrapped range; the second is zeroed but not copied | a wrapped range with a non-empty second chunk | copy both chunks | not executed | CyclicalProps.PopTailLosesSecondChunk | CyclicalProps.PopTailCorrectedCopiesRange |
| src/utils/cyclical_buffer.cc:48-49 | the end cell tested is `tail + nbytes - 1`, which with one-byte packets overshoots | psize 1, a full non-wrapped range | test the last popped cell | not executed | CyclicalProps.PopTailOvershootsWithUnitPackets | CyclicalProps.PopTailCorrectedCopiesRange |
| src/utils/buffer.cc:24-26 | the wrapped write's second check compares with `nbytes` instead of `end` | any wrapped write | compare with the second chunk's size | not executed | RingHelpers.CyclicalWriteWrappedFails, RingHelpers.CyclicalWriteWrappedExample | RingHelpers.CyclicalWriteCorrectedEmits |
| src/receiver.cc:196-198 | remove_pending dereferences end() when no interval ends at or after the bound | an empty pending set | stop when the search finds nothing | not executed | Pending.RemovePendingFaults, Pending.RemovePendingEmptyFaults | Pending.RemovePendingCorrectedTrims |
| receiver/receiver.cc:142 | the gap test `cur_pkt - lst_pkt > 1` admits a packet one past the expected one and stores it in the missing packet's place | packets 0 and 8 of size 4 | admit only the expected packet | not executed | LinearSpec.StepHidesSingleLoss, LinearSpec.StepHidesSingleLossExample | LinearSpec.StepCorrectedPlaces |
| src/common/net.cc:17-21 | operator< falls back to the ports even when the addresses differ | addresses (1, port 0) and (0, port 1) | compare ports only on equal addresses | not executed | Net.LessNotAsymmetric, Net.LessNotAsymmetricExample | Net.LessCorrectedIsStrictWeakOrder |
| src/receiver/audio_receiver.cc:89 | the size test reads the buffer's old packet size, not the new packet's | a first packet of 9 bytes with an 8-byte buffer | test the packet's size | not executed | AudioReceiver.OversizedSessionStarts | AudioReceiver.ReceiveCorrectedKeepsInv |
| src/receiver/station_remover.cc:29-31 | re-election runs before the expiring station is erased, so it can choose that station | one current station that expires | erase, then re-elect | not executed | StationRemover.SweepLeavesDangling | StationRemover.SweepCorrectedKeepsValid, StationRemover.SweepCorrectedKeepsLive |
| src/receiver/rexmit_sender.cc:44 | a hole's id is its ring index plus abs_tail() | tail at index 2, hole two bytes past it | offset from the tail plus abs_tail() | not executed | RexmitSender.RequestsWrongIdsExample | RexmitSender.CorrectedRequestsMissing |
| src/sender/retransmitter.cc:52-53 | the break condition is inverted: a datagram goes out only when the walk reached abs_head() | a request for the one cached packet | stop at abs_head(), send otherwise | not executed | Retransmitter.AsWrittenSendsOnlyHead, Retransmitter.CachedPacketNotResentExample | Retransmitter.CorrectedResendsCached, Retransmitter.CorrectedSendsRequested |
| src/sender/retransmitter.cc:33,54 | both header words are copied in host byte order | session 1 on little-endian hosts reads back as 2^56 | write them with htonll | not executed | Retransmitter.HostOrderHeaderExample | Retransmitter.CorrectedFrameDecodes |
| src/receiver/lookup_receiver.cc:68-69 | the reply buffer is reused across datagrams and read up to its first NUL, but recvfrom writes no terminator | a valid reply received after a longer datagram | terminate the text at the byte count recvfrom returns | not executed | LookupReceiver.ShorterReplyRejected | LookupReceiver.CorrectedReadsDatagram, LookupReceiver.CorrectedReplyParses |
