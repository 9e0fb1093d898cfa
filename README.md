# tinypipe in Dafny

A model of `tinypipe.c`. It is a single-producer, single-consumer pipe
that passes variable-length frames through one fixed byte buffer.

Each frame is a four-byte int32 length header followed by that many payload
bytes. Two header values are sentinels:

- `HLP_STOP` (0) marks the write head, where the next frame will go.
- `HLP_LOOP` (-1) tells the reader to continue at offset 0.

The writer appends frames after the write head. When the tail of the buffer
is too short, it wraps to offset 0, provided the reader has moved far enough
ahead. The reader follows the chain of headers from the read head.

The project has six modules:

- `Int32Header` (`header.dfy`) models the header load and store macros. They
  are an explicit little-endian two's-complement encoding with round-trip
  lemmas.
- `FrameChain` (`chain.dfy`) holds `Spells(buf, p, w, frames, canLoop)`. It
  says that the chain of headers from offset `p` spells the sequence `frames`
  and ends in the STOP header at `w`, following at most one LOOP header. The
  module has the lemmas about chains: how long they are, that they are
  unique, and how they survive byte writes and splices.
- `Placement` (`placement.dfy`) holds the decision of `tpipe_getWriteBuffer`
  as a pure function, in two versions: as written, and corrected. It also
  shows what the decision means, namely first fit over the bytes that hold
  nothing pending.
- `PipeInvariant` (`invariant.dfy`) holds the invariant the pipe keeps
  between calls. It has one preservation lemma per operation.
- `Pipe` (`pipe.dfy`) holds the class `TinyPipe`. Its fields are those of
  `struct TinyPipe`: the byte `array` and the two heads as offsets into it,
  `len` and `remainingBytes`. There is one method per C function.
  - The ghost field `Contents` mirrors the array as a sequence.
  - The ghost field `Frames` is the queue of frames written and not yet
    consumed.
  - The ghost field `reserved` is the size granted by the last successful
    `tpipe_getWriteBuffer`.
  - `Valid()` says that the chain from the read head spells `Frames` and
    ends at the write head. It wraps exactly when the writer is behind the
    reader.
- `Scenarios` (`scenarios.dfy`) holds clients that make concrete call
  sequences: a FIFO round trip, a wraparound, a refused frame, a
  full-then-drain sequence, and the state behind the first finding.

A 32-byte pipe that has taken one 20-byte frame and released it again
refuses a second 20-byte frame. The tail room is 8 bytes. A wrap needs
`bytesToWrite + 8` = 28 bytes before the read head (`tinypipe.c:89`), and
the read head is at 24. `Scenarios.SecondLargeFrameRefused` proves the
refusal. `Scenarios.WrapAround` shows a wrap that does happen, in a 40-byte
pipe.

## Model

| member | source | states |
|---|---|---|
| Int32Header.EncodeInt32 | tinypipe.c:45 | The store macro writes exactly four bytes. What they mean is given by DecodeEncode and EncodeDecode. |
| Int32Header.DecodeInt32 | tinypipe.c:46 | The load macro always yields an int32. |
| Int32Header.DecodeEncode | tinypipe.c:45-46 | Loading a header that was stored with an int32 value yields that value. |
| Int32Header.EncodeDecode | tinypipe.c:45-46 | Any four bytes are the stored form of the int32 they load as, so the encoding is a bijection between int32 values and 4-byte slots. |
| Int32Header.StopIsZeroBytes | tinypipe.c:43 | A header reads as STOP exactly when its four bytes are all zero. |
| Int32Header.UnsignedOfFour | tinypipe.c:46 | The unsigned value of a slot is the little-endian sum of its four bytes. |
| FrameChain.StoredIsUnique | tinypipe.c:45 | A header store determines the whole new buffer. |
| FrameChain.StoredKeeps | tinypipe.c:45 | A header store changes no byte outside its four-byte slot. |
| FrameChain.TwoStores | tinypipe.c:108-116 | Two stores into disjoint slots, in either order, leave both headers readable and every other byte unchanged. |
| FrameChain.StoredTwoKeeps | tinypipe.c:108-116 | After two header stores, every byte outside the two slots is unchanged. |
| FrameChain.StraightChainEnd | tinypipe.c:141-147 | A chain that does not wrap ends exactly where the headers and payloads of its frames end. |
| FrameChain.ChainFits | tinypipe.c:137-150 | A chain, wrapping or not, fits between its start and the end of the buffer, plus the bytes below its STOP header. |
| FrameChain.OccupiedIsLengthsPlusHeaders | tinypipe.c:145-146 | The payload lengths plus four header bytes per frame add up to the bytes the frames occupy. |
| FrameChain.FramesNonEmpty | tinypipe.c:64-71 | Every frame in a chain has a positive length. |
| FrameChain.AllowLoop | tinypipe.c:141-147 | A chain that may not wrap is still a chain when wrapping is allowed. |
| FrameChain.Extend | tinypipe.c:105-117 | If a buffer keeps a chain's bytes and a new chain starts at the old STOP, the two chains join. The combined chain spells the concatenated frames. |
| FrameChain.KeepChain | tinypipe.c:155 | A chain survives any write outside its frames and its STOP header. |
| FrameChain.StopAtEnd | tinypipe.c:141 | The header at the end point of a chain is STOP. |
| FrameChain.HeadOfChain | tinypipe.c:119-123 | The header at a chain's start means one of three things. STOP means no frame is left. LOOP means the same frames are spelled from offset 0. Otherwise it is the length of the oldest frame, and its payload bytes follow. |
| FrameChain.ChainIsUnique | tinypipe.c:137-150 | The headers determine the chain: from a given start, only one end point and one sequence of frames is spelled. |
| Placement.Decide | tinypipe.c:76-101 | The decision with the in-place test at tinypipe.c:84 corrected to `newWriteHead + 4 > readHead`. In place is granted only when the payload and both headers fit in the tail room and, with the writer behind the reader, end at or before the read head. A wrap is granted only when the tail is too short, the writer is not behind the reader, and payload and headers fit below the read head. |
| Placement.DecideAsWritten | tinypipe.c:76-101 | The decision exactly as written. In place is granted when the tail has room and, with the writer behind the reader, the new write head stays below the read head, even if the STOP header after it does not. A wrap is granted under the same conditions as in Decide. |
| Placement.DecideIsFirstFit | tinypipe.c:73-103 | In the corrected decision, each answer has a meaning. InPlace holds exactly when the payload and its trailing STOP fit in non-pending bytes after the current STOP. Wraparound holds exactly when they fit from offset 0 but not in place. NoSpace holds otherwise. |
| Placement.AsWrittenDiffers | tinypipe.c:84 | The decision as written differs from the corrected one exactly when the writer is behind the reader and the new write head falls one to three bytes short of the read head. In that case the version as written grants room whose STOP header covers pending bytes. |
| Placement.AsWrittenOverwritesReaderHeader | tinypipe.c:80-85 | The check as written grants 3 bytes in place at writeHead 6 with readHead 14. On a little-endian target, which the model's header encoding assumes, Produce's STOP header then turns the reader's length-2 header into STOP. |
| Placement.CommitTouchesNoPending | tinypipe.c:105-117 | Under the writer's limit, the payload and the new STOP header cover no pending byte. |
| Placement.FillKeepsChain | tinypipe.c:155 | Copying a payload into free space past the STOP header keeps the chain. |
| Placement.WrapKeepsChain | tinypipe.c:88-97 | STOP at offset 0 and LOOP over the old STOP keep the same frames, and the chain now wraps to end at 0. |
| Placement.CommitKeepsChain | tinypipe.c:105-117 | The length over the old STOP and a new STOP after the payload append the payload as one frame, with the chain ending at the new write head. |
| PipeInvariant.EmptyInv | tinypipe.c:48-58 | A buffer with STOP at offset 0 and both heads at 0 is a valid pipe whose only possible queue is empty. |
| PipeInvariant.SkipLoop | tinypipe.c:64-71 | After the LOOP skip, the header at the read head is STOP exactly when the queue is empty, and otherwise it is the oldest frame. It is never LOOP, and it moves only when the reader is ahead of the writer. |
| PipeInvariant.ReserveInv | tinypipe.c:80-85 | An in-place grant keeps the invariant and records the reservation below the writer's limit. |
| PipeInvariant.WrapInv | tinypipe.c:88-97 | A wraparound keeps the queue, puts the write head at 0 with the whole buffer as tail room, and leaves room for the reservation. |
| PipeInvariant.FillInv | tinypipe.c:155 | Copying at most the reserved bytes into the reservation keeps the queue. |
| PipeInvariant.CommitInv | tinypipe.c:105-117 | Produce appends the reserved payload to the queue as one frame and moves both the write head and the tail room by 4 + n. |
| PipeInvariant.ZeroLengthCommitIsLost | tinypipe.c:105-117 | A commit of 0 bytes leaves the chain ending at the old write head, and no chain reaches the new write head. |
| PipeInvariant.ConsumeInv | tinypipe.c:125-128 | Past a frame header, the read head drops exactly the oldest frame. |
| Pipe.InitAcceptsShortBuffer | tinypipe.c:48-56 | The assert in `tpipe_init` admits the sizes 1 to 3. A buffer of such a size has no store of STOP at offset 0, and no pipe state over it satisfies the invariant. |
| Pipe.TinyPipe.LoadHeader | tinypipe.c:46 | Loading the four array bytes at p yields an int32, namely the header there. |
| Pipe.TinyPipe.LoadIsHeader | tinypipe.c:46 | Loading from the array reads the header in the mirrored contents. |
| Pipe.TinyPipe.StoreHeader | tinypipe.c:45 | A header store writes its four bytes and nothing else, and the header then reads back as the value stored. |
| Pipe.TinyPipe.StoreHeaders | tinypipe.c:94-96 | Two header stores, in program order, into disjoint slots. |
| Pipe.TinyPipe.constructor | tinypipe.c:48-58 | A new pipe is valid and empty: both heads at 0, the tail room equal to the length, and STOP at offset 0. |
| Pipe.TinyPipe.HasData | tinypipe.c:64-71 | The result is 0 exactly when the queue is empty, and otherwise the length of the oldest frame, stored at the read head. The read head moves to 0 only over a LOOP header. |
| Pipe.TinyPipe.GetWriteBuffer | tinypipe.c:73-103 | Follows Placement.Decide, so the in-place test at tinypipe.c:84 is the corrected one of the first finding. NoSpace returns None and changes nothing. InPlace returns writeHead + 4 and changes nothing but the reservation. Wraparound returns 4, with the write head at 0, STOP at 0, LOOP at the old write head and the queue unchanged. |
| Pipe.TinyPipe.CopyToWriteBuffer | tinypipe.c:155 | The payload bytes are copied into the reservation, and the queue is unchanged. |
| Pipe.TinyPipe.Produce | tinypipe.c:105-117 | The write head moves up and the tail room shrinks by 4 + n. The length is stored at the old head and STOP at the new one. The reserved bytes become the last frame. |
| Pipe.TinyPipe.GetReadBuffer | tinypipe.c:119-123 | Returns readHead + 4 and the header at the read head: STOP only on an empty queue, LOOP only when wrapped, and otherwise the oldest frame's length. It changes nothing. |
| Pipe.TinyPipe.Consume | tinypipe.c:125-128 | The read head advances by 4 + length, and exactly the oldest frame leaves the queue. |
| Pipe.TinyPipe.Clear | tinypipe.c:130-135 | Every byte is zero, both heads are at 0, nothing is reserved, and the pipe is valid and empty. |
| Pipe.TinyPipe.GetTotalData | tinypipe.c:137-150 | The loop ends, changes nothing, and returns the sum of the lengths of the queued frames. That sum is at most len - 4. |
| Pipe.TinyPipe.TotalFits | tinypipe.c:137-150 | The queued payload bytes fit in the buffer after one header, so the sum does not overflow an int32. |
| Pipe.TinyPipe.Write | tinypipe.c:152-158 | Returns 0 with nothing changed when the corrected decision (Placement.Decide) is NoSpace. Otherwise it returns 1, and the data becomes the last frame. |
| Scenarios.ReadFrame | tinypipe.c:64-128 | hasData, getReadBuffer, copy and consume yield the oldest frame's bytes and drop it, or yield None on an empty pipe. |
| Scenarios.HasDataTwice | tinypipe.c:64-71 | A second hasData gives the same answer as the first. |
| Scenarios.WriteTwoReadTwo | tinypipe.c:152-158 | Frames written with tpipe_write come back in order with the same bytes. The total reported before reading is the sum of their lengths, and the pipe is empty after they are read. |
| Scenarios.WrapAround | tinypipe.c:86-98 | A frame that does not fit in the tail wraps to offset 0. The reader follows the LOOP header and gets it intact. |
| Scenarios.SecondLargeFrameRefused | tinypipe.c:88-90 | In a 32-byte pipe, a second 20-byte frame is refused. |
| Scenarios.FourFrames | tinypipe.c:152-158 | Four 10-byte frames fill a 64-byte pipe up to offset 56. |
| Scenarios.FullThenDrain | tinypipe.c:80-101 | A full pipe refuses a frame. After one consume, a frame that fits in the freed bytes wraps, and a larger one is still refused. |
| Scenarios.OverlapIsReachable | tinypipe.c:84 | The state of the first finding is reached through tpipe_write and a consume. |

## Left out

- Memory barriers and publication order (`hv_sfence`, tinypipe.c:23-41, :95, :113) are not modelled. Each call is atomic, and calls interleave sequentially. `StoreHeaders` keeps the program order of the two stores but not their cross-thread visibility.
- `malloc`, the allocation-failure assert and `tpipe_free` are replaced by array allocation, since Dafny manages memory.
- The return value of `tpipe_init` (`numBytes`) is not returned, because a constructor returns nothing. The size is the field `len`.
- Headers use a fixed little-endian encoding, not the target's native byte order behind the source's possibly unaligned int32 pointer cast. The corrected model relies only on the round trip between store and load, which holds in either order. The example of the first finding depends on the little-endian layout.
- Pointers are modelled as integer offsets into the array.
- `len`, `remainingBytes` and the heads are unbounded integers. The invariant keeps `len` at most INT32_MAX, so they do not wrap.
- Pipe.TinyPipe.GetWriteBuffer: uses the corrected in-place test of the first finding. For a writer behind the reader, the source grants a request whose new write head ends one to three bytes short of the read head. The model refuses it, so there GetWriteBuffer returns None and Write returns 0 where the source grants the space and returns 1. Placement.DecideAsWritten and Placement.AsWrittenDiffers model and characterise the source's test.
- Pipe.TinyPipe.GetWriteBuffer: requires 0 <= bytesToWrite <= INT32_MAX - 8. At tinypipe.c:76 the sum `bytesToWrite + 2 * sizeof(int32_t)` is computed in `size_t` and then narrowed to `const int`. The narrowing wraps for sizes near INT32_MAX. For bytesToWrite from -8 to -1 it yields a total from 0 to 7 that the source would grant. The model covers neither case.
- Pipe.TinyPipe.Consume: requires that the header at the read head is neither STOP nor LOOP. The source asserts only "not STOP" (tinypipe.c:126). On LOOP it would advance the read head by 3 bytes. Readers call hasData first, which skips LOOP.
- Pipe.TinyPipe.Produce: requires 0 < numBytes <= the size granted by the preceding getWriteBuffer. The source asserts only that the tail has room (tinypipe.c:106). A larger commit in a wrapped pipe could overwrite unread frames, and the header comment (tinypipe.h:80-82) asks for the same size. The zero case is the third finding.
- Pipe.TinyPipe.Write: requires 0 < numBytes <= |data|. The zero case is the third finding. memcpy reads numBytes bytes of data.
- Pipe.TinyPipe.CopyToWriteBuffer: models only the memcpy of tpipe_write. Other callers of getWriteBuffer may write anything into their reservation, and that is not modelled.
- Liveness is not stated. Neither the code nor its comments promise progress, for example that a large frame is eventually accepted.

## Findings

| source | as written | input that shows it | evidently intended | confidence | as-written member | corrected member |
|---|---|---|---|---|---|---|
| tinypipe.c:84 | The in-place branch refuses only when `newWriteHead >= readHead`. Produce then stores a four-byte STOP at `newWriteHead` (tinypipe.c:110). | Pipe of 40 bytes with writeHead 6, readHead 14 and remainingBytes 34, reached by writes of 10, 2 and 8 bytes, one consume and a write of 2 bytes. getWriteBuffer(3) is granted. The STOP at bytes 13-16 zeroes three bytes of the reader's header (length 2). On a little-endian target that header then reads as STOP, and the queued frames are lost. On a big-endian target those three bytes already hold 0 and this header survives; there the overlap damages only headers whose first three bytes are not all zero. | Refuse when `newWriteHead + 4 > readHead`, so that the STOP fits below the read head. | not executed | Placement.AsWrittenOverwritesReaderHeader | Placement.DecideIsFirstFit, Pipe.TinyPipe.GetWriteBuffer, Pipe.TinyPipe.Write |
| tinypipe.c:49 | `tpipe_init` asserts only `numBytes > 0`. | numBytes 1: the STOP store at tinypipe.c:56 writes four bytes into a one-byte allocation. | Require `numBytes >= 4`. | not executed | Pipe.InitAcceptsShortBuffer | Pipe.TinyPipe.constructor |
| tinypipe.c:116 | `tpipe_produce` (and `tpipe_write`) accept numBytes 0 and store the length 0, which equals STOP. | tpipe_write(q, data, 0) on an empty pipe: the header at 0 stays STOP and the new STOP lands at 4. Every later frame is written behind 4, and the reader never reaches it. | Refuse empty frames, or reserve another value for STOP. | not executed | PipeInvariant.ZeroLengthCommitIsLost | Pipe.TinyPipe.Produce |

