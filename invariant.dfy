/** The invariant a TinyPipe keeps between calls, stated on the contents of
    its buffer and its scalar fields, with one lemma per state-changing
    operation showing that the operation keeps it and what becomes of the
    queue of frames. */
module PipeInvariant {
  import opened Int32Header
  import opened FrameChain
  import opened Placement

  /** Frame f is stored at p: its length in the header at p, its bytes
      right after that header. */
  ghost predicate FrameAt(buf: seq<byte>, p: int, f: seq<byte>) {
    0 <= p && p + HEADER_SIZE + |f| <= |buf| && Header(buf, p) == |f|
    && buf[p + HEADER_SIZE .. p + HEADER_SIZE + |f|] == f
  }

  /** The pipe invariant: the heads keep their layout, a pending reservation
      lies in free space below the writer's limit, and the header chain from
      the read head spells the queued frames and ends in the STOP header at
      the write head, wrapping through a LOOP header exactly when the writer
      is behind the reader. */
  ghost predicate PipeInv(buf: seq<byte>, len: int, remaining: int, w: int, r: int,
                          frames: seq<seq<byte>>, reserved: int) {
    |buf| == len && HEADER_SIZE <= len <= INT32_MAX &&
    Layout(len, remaining, w, r) &&
    0 <= reserved &&
    (reserved > 0 ==> w + 2 * HEADER_SIZE + reserved <= Limit(len, r, w)) &&
    Spells(buf, r, w, frames, Wrapped(r, w))
  }

  /** A buffer whose first header is STOP, with both heads at offset 0, is
      an empty pipe (tpipe_init, tpipe_clear). */
  lemma EmptyInv(buf: seq<byte>)
    requires HEADER_SIZE <= |buf| <= INT32_MAX && Header(buf, 0) == STOP
    ensures PipeInv(buf, |buf|, |buf|, 0, 0, [], 0)
    ensures forall frames: seq<seq<byte>> :: PipeInv(buf, |buf|, |buf|, 0, 0, frames, 0) ==> frames == []
  {
  }

  /** tpipe_hasData: after skipping a LOOP header at the read head (to r2),
      the header there is STOP exactly when the queue is empty, and
      otherwise it is the oldest frame. Nothing is skipped when the reader
      is not ahead of the writer. */
  lemma SkipLoop(buf: seq<byte>, len: int, remaining: int, w: int, r: int, r2: int,
                 frames: seq<seq<byte>>, reserved: int)
    requires PipeInv(buf, len, remaining, w, r, frames, reserved)
    requires r2 == if Header(buf, r) == LOOP then 0 else r
    ensures PipeInv(buf, len, remaining, w, r2, frames, reserved)
    ensures Header(buf, r2) != LOOP
    ensures Header(buf, r2) == STOP <==> frames == []
    ensures frames != [] ==> FrameAt(buf, r2, frames[0]) && |frames[0]| > 0
    ensures r <= w ==> r2 == r
  {
    HeadOfChain(buf, r, w, frames, Wrapped(r, w));
    if Header(buf, r) == LOOP {
      HeadOfChain(buf, 0, w, frames, false);
    }
  }

  /** tpipe_getWriteBuffer, in place: granting n bytes changes no byte and
      keeps the invariant with the reservation recorded. */
  lemma ReserveInv(buf: seq<byte>, len: int, remaining: int, w: int, r: int,
                   frames: seq<seq<byte>>, reserved: int, n: int)
    requires PipeInv(buf, len, remaining, w, r, frames, reserved)
    requires 0 <= n && Decide(len, remaining, w, r, n) == InPlace
    ensures PipeInv(buf, len, remaining, w, r, frames, n)
    ensures w + 2 * HEADER_SIZE + n <= Limit(len, r, w)
  {
  }

  /** tpipe_getWriteBuffer, wrapping: STOP at offset 0 and LOOP over the old
      STOP header keep the same queue, with the write head at 0. */
  lemma WrapInv(before: seq<byte>, after: seq<byte>, len: int, remaining: int, w: int, r: int,
                frames: seq<seq<byte>>, reserved: int, n: int)
    requires PipeInv(before, len, remaining, w, r, frames, reserved)
    requires 0 <= n && Decide(len, remaining, w, r, n) == Wraparound
    requires StoredTwo(before, after, 0, STOP, w, LOOP)
    ensures PipeInv(after, len, len, 0, r, frames, n)
    ensures 2 * HEADER_SIZE + n <= Limit(len, r, 0)
  {
    WrapKeepsChain(before, after, r, w, frames);
  }

  /** Copying a payload into the reserved bytes keeps the queue. */
  lemma FillInv(before: seq<byte>, after: seq<byte>, len: int, remaining: int, w: int, r: int,
                frames: seq<seq<byte>>, reserved: int, data: seq<byte>)
    requires PipeInv(before, len, remaining, w, r, frames, reserved)
    requires |data| <= reserved
    requires w + HEADER_SIZE + |data| <= |before|
    requires after == before[..w + HEADER_SIZE] + data + before[w + HEADER_SIZE + |data|..]
    ensures PipeInv(after, len, remaining, w, r, frames, reserved)
  {
    var a := w + HEADER_SIZE;
    assert forall i :: 0 <= i < |after| && !(a <= i < a + |data|) ==> after[i] == before[i];
    FillKeepsChain(before, after, r, w, frames, a, a + |data|);
  }

  /** tpipe_produce: the length over the old STOP header and a new STOP after
      n payload bytes append those bytes to the queue as one frame and move
      the write head past them. */
  lemma CommitInv(before: seq<byte>, after: seq<byte>, len: int, remaining: int, w: int, r: int,
                  frames: seq<seq<byte>>, reserved: int, n: int)
    requires PipeInv(before, len, remaining, w, r, frames, reserved)
    requires 0 < n <= reserved
    requires StoredTwo(before, after, w, n, w + HEADER_SIZE + n, STOP)
    ensures PipeInv(after, len, remaining - (HEADER_SIZE + n), w + HEADER_SIZE + n, r,
                    frames + [before[w + HEADER_SIZE .. w + HEADER_SIZE + n]], 0)
  {
    CommitKeepsChain(before, after, r, w, frames, n);
  }

  /** tpipe_produce as written also accepts a payload of 0 bytes. It then
      stores STOP after the empty payload and the length 0 over the old STOP
      header; but 0 is STOP, so the chain still ends at the old write head:
      the queue is unchanged, and no chain reaches the new write head, behind
      which every later frame is written and never read. */
  lemma ZeroLengthCommitIsLost(before: seq<byte>, after: seq<byte>, len: int, remaining: int, w: int, r: int,
                               frames: seq<seq<byte>>, reserved: int, w2: int)
    requires PipeInv(before, len, remaining, w, r, frames, reserved)
    requires w2 == w + HEADER_SIZE && w2 + HEADER_SIZE <= Limit(len, r, w)
    requires StoredTwo(before, after, w, 0, w2, STOP)
    ensures Spells(after, r, w, frames, Wrapped(r, w))
    ensures forall later :: !Spells(after, r, w2, later, Wrapped(r, w))
  {
    var c := Wrapped(r, w);
    StopAtEnd(before, r, w, frames, c);
    StoredTwoKeeps(before, after, w, 0, w2, STOP);
    assert before[w .. w + HEADER_SIZE] == after[w .. w + HEADER_SIZE] by {
      StopIsZeroBytes(before[w .. w + HEADER_SIZE]);
      StopIsZeroBytes(after[w .. w + HEADER_SIZE]);
    }
    KeepChain(before, after, r, w, frames, c);
    forall later | Spells(after, r, w2, later, c)
      ensures false
    {
      ChainIsUnique(after, r, w, frames, w2, later, c);
    }
  }

  /** tpipe_consume: past a frame header the read head drops the oldest
      frame from the queue. */
  lemma ConsumeInv(buf: seq<byte>, len: int, remaining: int, w: int, r: int,
                   frames: seq<seq<byte>>, reserved: int)
    requires PipeInv(buf, len, remaining, w, r, frames, reserved)
    requires Header(buf, r) != STOP && Header(buf, r) != LOOP
    ensures frames != [] && Header(buf, r) == |frames[0]|
    ensures PipeInv(buf, len, remaining, w, r + HEADER_SIZE + |frames[0]|, frames[1..], reserved)
  {
    HeadOfChain(buf, r, w, frames, Wrapped(r, w));
    if !Wrapped(r, w) {
      StraightChainEnd(buf, r + HEADER_SIZE + |frames[0]|, w, frames[1..]);
    }
  }
}
