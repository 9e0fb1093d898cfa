/** The TinyPipe engine of tinypipe.c: one byte buffer, a write head owned
    by the producer, a read head owned by the consumer, and the tail room past
    the write head. Each C function is one method; the calls are modelled as
    atomic and sequentially interleaved. */
module Pipe {
  import opened Int32Header
  import opened FrameChain
  import opened Placement
  import opened PipeInvariant

  datatype Option<T> = None | Some(value: T)

  /** The only check tpipe_init makes of its size argument. */
  predicate InitAccepts(numBytes: int) {
    numBytes > 0
  }

  /** tpipe_init accepts sizes of one to three bytes. A buffer of such a
      size has no room for the STOP header stored at offset 0, so no store
      of it exists and no pipe state over the buffer is valid. The
      constructor below requires room for that header instead. */
  lemma InitAcceptsShortBuffer(buf: seq<byte>)
    ensures InitAccepts(|buf|) && |buf| < HEADER_SIZE <==> 1 <= |buf| <= 3
    ensures InitAccepts(|buf|) && |buf| < HEADER_SIZE ==>
              (forall after :: !Stored(buf, after, 0, STOP))
              && (forall frames :: !PipeInv(buf, |buf|, |buf|, 0, 0, frames, 0))
  {
  }

  class TinyPipe {
    var buffer: array<byte>
    var writeHead: int
    var readHead: int
    var len: int
    /** Bytes from the write head to the end of the buffer. */
    var remainingBytes: int

    /** The bytes of the buffer, as a value. */
    ghost var Contents: seq<byte>
    /** The frames written and not yet consumed, oldest first. */
    ghost var Frames: seq<seq<byte>>
    /** Payload bytes granted by the last successful GetWriteBuffer and not
        yet committed by Produce. */
    ghost var reserved: int

    /** The object invariant: the header chain from the read head spells
        Frames and ends in the STOP header at the write head, wrapping at a
        LOOP header exactly when the writer is behind the reader; a pending
        reservation lies in free space. */
    ghost predicate Valid()
      reads this, buffer
    {
      len == buffer.Length && Mirrors() &&
      PipeInv(Contents, len, remainingBytes, writeHead, readHead, Frames, reserved)
    }

    /** Contents holds exactly the bytes of the buffer. */
    ghost predicate Mirrors()
      reads this, buffer
    {
      |Contents| == buffer.Length && forall i :: 0 <= i < buffer.Length ==> buffer[i] == Contents[i]
    }

    /** The header at offset p (TPIPE_GET_INT32_AT_BUFFER). */
    function LoadHeader(p: int): (h: int)
      reads this, buffer
      requires 0 <= p && p + HEADER_SIZE <= buffer.Length
      ensures IsInt32(h)
    {
      DecodeInt32([buffer[p], buffer[p + 1], buffer[p + 2], buffer[p + 3]])
    }

    /** Loading a header from the buffer reads the header in Contents. */
    lemma LoadIsHeader(p: int)
      requires Mirrors() && 0 <= p && p + HEADER_SIZE <= buffer.Length
      ensures LoadHeader(p) == Header(Contents, p)
    {
      assert Contents[p .. p + HEADER_SIZE] == [buffer[p], buffer[p + 1], buffer[p + 2], buffer[p + 3]];
    }

    /** The placement GetWriteBuffer chooses for n payload bytes. */
    function PlacementFor(n: int): Placement
      reads this
    {
      Decide(len, remainingBytes, writeHead, readHead, n)
    }

    /** TPIPE_SET_INT32_AT_BUFFER: store header x at offset p. */
    method StoreHeader(p: int, x: int)
      requires Mirrors() && 0 <= p && p + HEADER_SIZE <= buffer.Length && IsInt32(x)
      modifies this`Contents, buffer
      ensures Mirrors() && Stored(old(Contents), Contents, p, x)
    {
      var b := EncodeInt32(x);
      buffer[p], buffer[p + 1], buffer[p + 2], buffer[p + 3] := b[0], b[1], b[2], b[3];
      Contents := Contents[..p] + b + Contents[p + HEADER_SIZE..];
      assert Contents[p .. p + HEADER_SIZE] == b;
      DecodeEncode(x);
    }

    /** Two header stores in program order, the first at `first`, then the
        second at `second`, in disjoint slots (the source separates them by a
        store fence, so that a reader never sees the second without the
        first). */
    method StoreHeaders(first: int, x: int, second: int, y: int)
      requires Mirrors()
      requires 0 <= first && first + HEADER_SIZE <= buffer.Length && IsInt32(x)
      requires 0 <= second && second + HEADER_SIZE <= buffer.Length && IsInt32(y)
      requires first + HEADER_SIZE <= second || second + HEADER_SIZE <= first
      modifies this`Contents, buffer
      ensures Mirrors()
      ensures first < second ==> StoredTwo(old(Contents), Contents, first, x, second, y)
      ensures second < first ==> StoredTwo(old(Contents), Contents, second, y, first, x)
    {
      ghost var before := Contents;
      StoreHeader(first, x);
      ghost var mid := Contents;
      StoreHeader(second, y);
      if first < second {
        TwoStores(before, mid, Contents, first, x, second, y, true);
      } else {
        TwoStores(before, mid, Contents, second, y, first, x, false);
      }
    }

    /** tpipe_init: a pipe of numBytes bytes holding no frame. */
    constructor (numBytes: int)
      requires HEADER_SIZE <= numBytes <= INT32_MAX
      ensures Valid() && fresh(buffer)
      ensures len == numBytes && remainingBytes == len
      ensures writeHead == 0 && readHead == 0 && LoadHeader(0) == STOP
      ensures Frames == [] && reserved == 0
    {
      buffer := new byte[numBytes];
      writeHead, readHead := 0, 0;
      len, remainingBytes := numBytes, numBytes;
      Frames, reserved := [], 0;
      new;
      Contents := buffer[..];
      StoreHeader(0, STOP);
      LoadIsHeader(0);
      EmptyInv(Contents);
    }

    /** tpipe_hasData: the length of the oldest frame, or 0 when there is
        none. A LOOP header at the read head is skipped first, by moving the
        read head to offset 0; that is the only change it makes. */
    method HasData() returns (x: int)
      requires Valid()
      modifies this`readHead
      ensures Valid()
      ensures x == 0 <==> Frames == []
      ensures x != 0 ==> 0 < x == |Frames[0]| && FrameAt(Contents, readHead, Frames[0])
      ensures x == Header(Contents, readHead)
      ensures readHead == if Header(Contents, old(readHead)) == LOOP then 0 else old(readHead)
      ensures old(readHead) <= writeHead ==> readHead == old(readHead)
    {
      ghost var r2 := if Header(Contents, readHead) == LOOP then 0 else readHead;
      SkipLoop(Contents, len, remainingBytes, writeHead, readHead, r2, Frames, reserved);
      LoadIsHeader(readHead);
      x := LoadHeader(readHead);
      if x == LOOP {
        readHead := 0;
        LoadIsHeader(readHead);
        x := LoadHeader(readHead);
      }
    }

    /** tpipe_getWriteBuffer: reserve room for a frame of bytesToWrite payload
        bytes and return the offset of its payload, or None. In place, nothing
        changes. On wraparound the write head returns to offset 0, which gets
        a STOP header, and the old write head gets a LOOP header; the queue of
        frames is unchanged and no pending byte other than the old STOP header
        is written. */
    method GetWriteBuffer(bytesToWrite: int) returns (start: Option<int>)
      requires Valid()
      requires 0 <= bytesToWrite <= INT32_MAX - 2 * HEADER_SIZE
      modifies this`writeHead, this`remainingBytes, this`reserved, this`Contents, buffer
      ensures Valid()
      ensures old(PlacementFor(bytesToWrite)) == NoSpace ==>
                start == None && writeHead == old(writeHead) && remainingBytes == old(remainingBytes)
                && reserved == old(reserved) && Contents == old(Contents)
      ensures old(PlacementFor(bytesToWrite)) == InPlace ==>
                start == Some(old(writeHead) + HEADER_SIZE) && writeHead == old(writeHead)
                && remainingBytes == old(remainingBytes) && reserved == bytesToWrite
                && Contents == old(Contents)
      ensures old(PlacementFor(bytesToWrite)) == Wraparound ==>
                start == Some(HEADER_SIZE) && writeHead == 0 && remainingBytes == len
                && reserved == bytesToWrite
                && StoredTwo(old(Contents), Contents, 0, STOP, old(writeHead), LOOP)
      ensures start.Some? ==> start.value + bytesToWrite + HEADER_SIZE <= Limit(len, readHead, writeHead)
    {
      var oldWriteHead := writeHead;
      var totalByteRequirement := bytesToWrite + 2 * HEADER_SIZE;
      if totalByteRequirement <= remainingBytes {
        var newWriteHead := oldWriteHead + HEADER_SIZE + bytesToWrite;
        if oldWriteHead < readHead && newWriteHead + HEADER_SIZE > readHead {
          start := None;
        } else {
          ReserveInv(Contents, len, remainingBytes, writeHead, readHead, Frames, reserved, bytesToWrite);
          start := Some(oldWriteHead + HEADER_SIZE);
          reserved := bytesToWrite;
        }
      } else if totalByteRequirement <= len {
        if oldWriteHead < readHead || totalByteRequirement > readHead {
          start := None;
        } else {
          ghost var before := Contents;
          ghost var rem := remainingBytes;
          writeHead := 0;
          remainingBytes := len;
          StoreHeaders(0, STOP, oldWriteHead, LOOP);
          WrapInv(before, Contents, len, rem, oldWriteHead, readHead, Frames, reserved, bytesToWrite);
          reserved := bytesToWrite;
          start := Some(HEADER_SIZE);
        }
      } else {
        start := None;
      }
    }

    /** The copy of tpipe_write (memcpy), and what any caller of
        GetWriteBuffer does: fill the reserved payload bytes. The queue is
        not disturbed. */
    method CopyToWriteBuffer(start: int, data: seq<byte>, numBytes: int)
      requires Valid()
      requires start == writeHead + HEADER_SIZE && 0 <= numBytes <= reserved && numBytes <= |data|
      requires start + numBytes <= len
      modifies this`Contents, buffer
      ensures Valid()
      ensures Contents == old(Contents)[..start] + data[..numBytes] + old(Contents)[start + numBytes..]
    {
      ghost var before := Contents;
      forall i | 0 <= i < numBytes {
        buffer[start + i] := data[i];
      }
      Contents := before[..start] + data[..numBytes] + before[start + numBytes..];
      forall i | 0 <= i < buffer.Length
        ensures buffer[i] == Contents[i]
      {
        if i < start {
          assert Contents[i] == before[i];
        } else if i < start + numBytes {
          assert Contents[i] == data[i - start];
        } else {
          assert Contents[i] == before[i];
        }
      }
      FillInv(before, Contents, len, remainingBytes, writeHead, readHead, Frames, reserved, data[..numBytes]);
    }

    /** tpipe_produce: commit numBytes payload bytes of the reservation as a
        frame. A STOP header goes after the payload and the length into the
        old STOP header; the frame is appended to the queue and nothing
        pending is overwritten. */
    method Produce(numBytes: int)
      requires Valid()
      requires 0 < numBytes <= reserved
      modifies this`writeHead, this`remainingBytes, this`Frames, this`reserved, this`Contents, buffer
      ensures Valid()
      ensures writeHead == old(writeHead) + HEADER_SIZE + numBytes
      ensures remainingBytes == old(remainingBytes) - (HEADER_SIZE + numBytes)
      ensures Frames == old(Frames) + [old(Contents[writeHead + HEADER_SIZE .. writeHead + HEADER_SIZE + numBytes])]
      ensures reserved == 0
      ensures StoredTwo(old(Contents), Contents, old(writeHead), numBytes, writeHead, STOP)
    {
      ghost var before, rem0, frames0, res0 := Contents, remainingBytes, Frames, reserved;
      var oldWriteHead := writeHead;
      remainingBytes := remainingBytes - (HEADER_SIZE + numBytes);
      writeHead := writeHead + HEADER_SIZE + numBytes;
      Frames, reserved := Frames + [before[oldWriteHead + HEADER_SIZE .. oldWriteHead + HEADER_SIZE + numBytes]], 0;
      StoreHeaders(writeHead, STOP, oldWriteHead, numBytes);
      CommitInv(before, Contents, len, rem0, oldWriteHead, readHead, frames0, res0, numBytes);
    }

    /** tpipe_getReadBuffer: the payload offset of the frame at the read head
        and the header there. It changes nothing. */
    method GetReadBuffer() returns (start: int, numBytes: int)
      requires Valid()
      ensures start == readHead + HEADER_SIZE
      ensures numBytes == Header(Contents, readHead)
      ensures numBytes == STOP || numBytes == LOOP || numBytes > 0
      ensures numBytes == STOP ==> Frames == []
      ensures numBytes == LOOP ==> Wrapped(readHead, writeHead)
      ensures numBytes > 0 ==> Frames != [] && numBytes == |Frames[0]| && FrameAt(Contents, readHead, Frames[0])
    {
      HeadOfChain(Contents, readHead, writeHead, Frames, Wrapped(readHead, writeHead));
      LoadIsHeader(readHead);
      numBytes := LoadHeader(readHead);
      start := readHead + HEADER_SIZE;
    }

    /** tpipe_consume: drop the oldest frame. The source asserts only that
        the header is not STOP; on a LOOP header it would move the read head
        by three bytes, so the model also rules that out (HasData skips it). */
    method Consume()
      requires Valid()
      requires Header(Contents, readHead) != STOP && Header(Contents, readHead) != LOOP
      modifies this`readHead, this`Frames
      ensures Valid()
      ensures old(Frames) != [] && Frames == old(Frames)[1..]
      ensures readHead == old(readHead) + HEADER_SIZE + |old(Frames)[0]|
    {
      ConsumeInv(Contents, len, remainingBytes, writeHead, readHead, Frames, reserved);
      LoadIsHeader(readHead);
      var h := LoadHeader(readHead);
      readHead := readHead + HEADER_SIZE + h;
      Frames := Frames[1..];
    }

    /** tpipe_clear: zero the whole buffer and return both heads to offset 0,
        leaving an empty pipe. */
    method Clear()
      requires len == buffer.Length && HEADER_SIZE <= len <= INT32_MAX
      modifies this`writeHead, this`readHead, this`remainingBytes, this`Frames, this`reserved, this`Contents, buffer
      ensures Valid()
      ensures writeHead == 0 && readHead == 0 && remainingBytes == len && Frames == [] && reserved == 0
      ensures forall i :: 0 <= i < len ==> buffer[i] == 0
    {
      writeHead := 0;
      readHead := 0;
      remainingBytes := len;
      forall i | 0 <= i < buffer.Length {
        buffer[i] := 0;
      }
      Contents := seq(len, _ => 0);
      Frames, reserved := [], 0;
      assert Contents[0 .. HEADER_SIZE] == [0, 0, 0, 0];
      StopIsZeroBytes(Contents[0 .. HEADER_SIZE]);
      EmptyInv(Contents);
    }

    /** tpipe_getTotalData: walk the chain from the read head without moving
        it, following LOOP to offset 0, and add up the frame lengths. The
        total is the sum of the lengths of the queued frames, and it cannot
        overflow an int32. */
    method GetTotalData() returns (total: int)
      requires Valid()
      ensures total == SumLengths(Frames)
      ensures 0 <= total <= len - HEADER_SIZE
    {
      var p := readHead;
      total := 0;
      ghost var rest := Frames;
      ghost var canLoop := Wrapped(readHead, writeHead);
      LoadIsHeader(p);
      var d := LoadHeader(p);
      while d != STOP
        invariant Spells(Contents, p, writeHead, rest, canLoop)
        invariant d == Header(Contents, p)
        invariant total + SumLengths(rest) == SumLengths(Frames)
        decreases |rest|, if canLoop then 1 else 0
      {
        if d == LOOP {
          p := 0;
          canLoop := false;
        } else {
          total := total + d;
          p := p + HEADER_SIZE + d;
          rest := rest[1..];
        }
        LoadIsHeader(p);
        d := LoadHeader(p);
      }
      TotalFits();
    }

    /** The queued payload bytes fit in the buffer, headers aside. */
    lemma TotalFits()
      requires Valid()
      ensures SumLengths(Frames) <= len - HEADER_SIZE
    {
      if Wrapped(readHead, writeHead) {
        ChainFits(Contents, readHead, writeHead, Frames, true);
      } else {
        StraightChainEnd(Contents, readHead, writeHead, Frames);
      }
      OccupiedIsLengthsPlusHeaders(Frames);
    }

    /** tpipe_write: reserve, copy numBytes bytes of data, commit. Returns 0
        and changes nothing when there is no room, 1 after appending the
        frame. */
    method Write(data: seq<byte>, numBytes: int) returns (ok: int)
      requires Valid()
      requires 0 < numBytes <= INT32_MAX - 2 * HEADER_SIZE && numBytes <= |data|
      modifies this`writeHead, this`remainingBytes, this`Frames, this`reserved, this`Contents, buffer
      ensures Valid()
      ensures ok == if old(PlacementFor(numBytes)) == NoSpace then 0 else 1
      ensures ok == 0 ==> writeHead == old(writeHead) && remainingBytes == old(remainingBytes)
                          && Frames == old(Frames) && reserved == old(reserved) && Contents == old(Contents)
      ensures ok == 1 ==> Frames == old(Frames) + [data[..numBytes]] && reserved == 0
      ensures ok == 1 ==> writeHead == (if old(PlacementFor(numBytes)) == InPlace then old(writeHead) else 0)
                                       + HEADER_SIZE + numBytes
      ensures remainingBytes == len - writeHead
    {
      var start := GetWriteBuffer(numBytes);
      if start == None {
        return 0;
      }
      CopyToWriteBuffer(start.value, data, numBytes);
      Produce(numBytes);
      return 1;
    }
  }
}
