/** The header chain of the pipe: starting at the read head, each header is
    either a frame length followed by that many payload bytes, LOOP (go on at
    offset 0) or STOP (the write frontier). This module states when a buffer's
    chain spells a given queue of frames, and how the chain survives writes
    that stay off its bytes. */
module FrameChain {
  import opened Int32Header

  /** The header stored at offset p. */
  function Header(buf: seq<byte>, p: int): int
    requires 0 <= p && p + HEADER_SIZE <= |buf|
  {
    DecodeInt32(buf[p .. p + HEADER_SIZE])
  }

  /** buf' is buf with header x stored at offset p (the store macro): the
      four bytes there read back as x and no other byte differs. */
  ghost predicate Stored(buf: seq<byte>, buf': seq<byte>, p: int, x: int) {
    |buf'| == |buf| && 0 <= p && p + HEADER_SIZE <= |buf| &&
    buf'[..p] == buf[..p] && buf'[p + HEADER_SIZE..] == buf[p + HEADER_SIZE..] &&
    Header(buf', p) == x
  }

  /** buf' is buf with header x stored at p and header y stored at q, the
      two slots apart: both read back, and no other byte differs. */
  ghost predicate StoredTwo(buf: seq<byte>, buf': seq<byte>, p: int, x: int, q: int, y: int) {
    |buf'| == |buf| && 0 <= p && p + HEADER_SIZE <= q && q + HEADER_SIZE <= |buf| &&
    buf'[..p] == buf[..p] && buf'[p + HEADER_SIZE .. q] == buf[p + HEADER_SIZE .. q] &&
    buf'[q + HEADER_SIZE..] == buf[q + HEADER_SIZE..] &&
    Header(buf', p) == x && Header(buf', q) == y
  }

  /** A store fixes the new buffer: four bytes hold one header value only. */
  lemma StoredIsUnique(buf: seq<byte>, b1: seq<byte>, b2: seq<byte>, p: int, x: int)
    requires Stored(buf, b1, p, x) && Stored(buf, b2, p, x)
    ensures b1 == b2
  {
    EncodeDecode(b1[p .. p + HEADER_SIZE]);
    EncodeDecode(b2[p .. p + HEADER_SIZE]);
    assert b1 == b1[..p] + b1[p .. p + HEADER_SIZE] + b1[p + HEADER_SIZE..];
    assert b2 == b2[..p] + b2[p .. p + HEADER_SIZE] + b2[p + HEADER_SIZE..];
  }

  /** A store changes no byte outside its four. */
  lemma StoredKeeps(buf: seq<byte>, buf': seq<byte>, p: int, x: int)
    requires Stored(buf, buf', p, x)
    ensures forall i :: 0 <= i < |buf| && !(p <= i < p + HEADER_SIZE) ==> buf'[i] == buf[i]
  {
    forall i | 0 <= i < |buf| && !(p <= i < p + HEADER_SIZE)
      ensures buf'[i] == buf[i]
    {
      if i < p {
        assert buf'[..p][i] == buf[..p][i];
      } else {
        assert buf'[p + HEADER_SIZE..][i - p - HEADER_SIZE] == buf[p + HEADER_SIZE..][i - p - HEADER_SIZE];
      }
    }
  }

  /** Two stores to disjoint slots, in either order, make a StoredTwo. */
  lemma TwoStores(buf: seq<byte>, mid: seq<byte>, buf': seq<byte>, p: int, x: int, q: int, y: int, lowFirst: bool)
    requires p + HEADER_SIZE <= q
    requires lowFirst ==> Stored(buf, mid, p, x) && Stored(mid, buf', q, y)
    requires !lowFirst ==> Stored(buf, mid, q, y) && Stored(mid, buf', p, x)
    ensures StoredTwo(buf, buf', p, x, q, y)
  {
    if lowFirst {
      StoredKeeps(buf, mid, p, x);
      StoredKeeps(mid, buf', q, y);
      SliceAgree(mid, buf', p, p + HEADER_SIZE);
    } else {
      StoredKeeps(buf, mid, q, y);
      StoredKeeps(mid, buf', p, x);
      SliceAgree(mid, buf', q, q + HEADER_SIZE);
    }
    assert buf'[..p] == buf[..p];
    assert buf'[p + HEADER_SIZE .. q] == buf[p + HEADER_SIZE .. q];
    assert buf'[q + HEADER_SIZE..] == buf[q + HEADER_SIZE..];
  }

  /** What a StoredTwo leaves alone. */
  lemma StoredTwoKeeps(buf: seq<byte>, buf': seq<byte>, p: int, x: int, q: int, y: int)
    requires StoredTwo(buf, buf', p, x, q, y)
    ensures forall i :: 0 <= i < |buf| && !(p <= i < p + HEADER_SIZE) && !(q <= i < q + HEADER_SIZE)
                        ==> buf'[i] == buf[i]
  {
    forall i | 0 <= i < |buf| && !(p <= i < p + HEADER_SIZE) && !(q <= i < q + HEADER_SIZE)
      ensures buf'[i] == buf[i]
    {
      if i < p {
        assert buf'[..p][i] == buf[..p][i];
      } else if i < q {
        assert buf'[p + HEADER_SIZE .. q][i - p - HEADER_SIZE] == buf[p + HEADER_SIZE .. q][i - p - HEADER_SIZE];
      } else {
        assert buf'[q + HEADER_SIZE..][i - q - HEADER_SIZE] == buf[q + HEADER_SIZE..][i - q - HEADER_SIZE];
      }
    }
  }

  /** The chain of headers from p spells `frames` and then reaches STOP at w,
      taking the LOOP jump to offset 0 at most once, and only if canLoop. */
  ghost predicate Spells(buf: seq<byte>, p: int, w: int, frames: seq<seq<byte>>, canLoop: bool)
    decreases |frames|, if canLoop then 1 else 0
  {
    0 <= p && p + HEADER_SIZE <= |buf| &&
    var h := Header(buf, p);
    if h == STOP then
      p == w && frames == []
    else if h == LOOP then
      canLoop && Spells(buf, 0, w, frames, false)
    else
      0 < h && frames != [] && p + HEADER_SIZE + h <= |buf| &&
      buf[p + HEADER_SIZE .. p + HEADER_SIZE + h] == frames[0] &&
      Spells(buf, p + HEADER_SIZE + h, w, frames[1..], canLoop)
  }

  /** Bytes the frames occupy in the buffer, headers included. */
  function Occupied(frames: seq<seq<byte>>): nat {
    if frames == [] then 0 else HEADER_SIZE + |frames[0]| + Occupied(frames[1..])
  }

  /** Sum of the payload lengths of the frames. */
  function SumLengths(frames: seq<seq<byte>>): nat {
    if frames == [] then 0 else |frames[0]| + SumLengths(frames[1..])
  }

  /** Offset i lies on the part of a chain from p that precedes its STOP
      header at w: [p, w) when the chain runs straight, and everything from p
      to the end of the buffer together with [0, w) when it may wrap. */
  ghost predicate Before(canLoop: bool, p: int, w: int, i: int) {
    if canLoop then p <= i || i < w else p <= i < w
  }

  /** Two buffers agree on the chain's bytes before its STOP header. */
  ghost predicate AgreeBefore(buf: seq<byte>, buf': seq<byte>, canLoop: bool, p: int, w: int) {
    |buf'| == |buf| &&
    forall i :: 0 <= i < |buf| && Before(canLoop, p, w, i) ==> buf'[i] == buf[i]
  }

  lemma SliceAgree(buf: seq<byte>, buf': seq<byte>, a: int, b: int)
    requires 0 <= a <= b <= |buf| == |buf'|
    requires forall i :: a <= i < b ==> buf'[i] == buf[i]
    ensures buf'[a..b] == buf[a..b]
  {
  }

  /** A chain that does not wrap ends exactly Occupied(frames) bytes after it
      starts. */
  lemma {:induction false} StraightChainEnd(buf: seq<byte>, p: int, w: int, frames: seq<seq<byte>>)
    requires Spells(buf, p, w, frames, false)
    ensures w == p + Occupied(frames)
    decreases |frames|
  {
    if Header(buf, p) != STOP {
      StraightChainEnd(buf, p + HEADER_SIZE + |frames[0]|, w, frames[1..]);
    }
  }

  /** What a chain holds fits between its start and its STOP header: it uses
      at most the bytes from p to the end of the buffer, plus [0, w) if it
      wraps. */
  lemma {:induction false} ChainFits(buf: seq<byte>, p: int, w: int, frames: seq<seq<byte>>, canLoop: bool)
    requires Spells(buf, p, w, frames, canLoop)
    ensures p + Occupied(frames) <= |buf| - HEADER_SIZE + w
    decreases |frames|, if canLoop then 1 else 0
  {
    var h := Header(buf, p);
    if h == STOP {
    } else if h == LOOP {
      StraightChainEnd(buf, 0, w, frames);
    } else {
      ChainFits(buf, p + HEADER_SIZE + h, w, frames[1..], canLoop);
    }
  }

  /** The bytes the frames occupy are their payload lengths plus one header
      per frame. */
  lemma {:induction false} OccupiedIsLengthsPlusHeaders(frames: seq<seq<byte>>)
    ensures SumLengths(frames) + HEADER_SIZE * |frames| == Occupied(frames)
  {
    if frames != [] {
      OccupiedIsLengthsPlusHeaders(frames[1..]);
    }
  }

  /** Every frame a chain spells has a positive length: a zero-length frame
      would need a header equal to STOP. */
  lemma {:induction false} FramesNonEmpty(buf: seq<byte>, p: int, w: int, frames: seq<seq<byte>>, canLoop: bool)
    requires Spells(buf, p, w, frames, canLoop)
    ensures forall k :: 0 <= k < |frames| ==> |frames[k]| > 0
    decreases |frames|, if canLoop then 1 else 0
  {
    var h := Header(buf, p);
    if h == LOOP {
      FramesNonEmpty(buf, 0, w, frames, false);
    } else if h != STOP {
      FramesNonEmpty(buf, p + HEADER_SIZE + h, w, frames[1..], canLoop);
      assert forall k :: 1 <= k < |frames| ==> frames[k] == frames[1..][k - 1];
    }
  }

  /** Allowing the LOOP jump never breaks a chain. */
  lemma {:induction false} AllowLoop(buf: seq<byte>, p: int, w: int, frames: seq<seq<byte>>)
    requires Spells(buf, p, w, frames, false)
    ensures Spells(buf, p, w, frames, true)
    decreases |frames|
  {
    var h := Header(buf, p);
    if h != STOP {
      AllowLoop(buf, p + HEADER_SIZE + h, w, frames[1..]);
    }
  }

  /** The splice: if buf' keeps the bytes of a chain from p to its STOP at w,
      and in buf' a new chain runs from w to w2 spelling `tail`, then in buf'
      the chain from p spells frames + tail up to w2. This is how a committed
      frame (tail = [payload]), a wraparound (tail = [], a LOOP at w) and a
      write into free space (tail = [], STOP kept at w) keep the queue. */
  lemma {:induction false} Extend(buf: seq<byte>, buf': seq<byte>, p: int, w: int, frames: seq<seq<byte>>,
                                  canLoop: bool, w2: int, tail: seq<seq<byte>>, tailLoops: bool)
    requires Spells(buf, p, w, frames, canLoop)
    requires AgreeBefore(buf, buf', canLoop, p, w)
    requires Spells(buf', w, w2, tail, tailLoops)
    requires !(canLoop && tailLoops)
    ensures Spells(buf', p, w2, frames + tail, canLoop || tailLoops)
    decreases |frames|, if canLoop then 1 else 0, 1
  {
    var h := Header(buf, p);
    if h == STOP {
      assert frames + tail == tail;
      if canLoop {
        AllowLoop(buf', p, w2, tail);
      }
    } else if h == LOOP {
      ExtendAtLoop(buf, buf', p, w, frames, w2, tail, tailLoops);
    } else {
      if !canLoop {
        StraightChainEnd(buf, p + HEADER_SIZE + h, w, frames[1..]);
      }
      assert frames == [frames[0]] + frames[1..];
      ExtendAtFrame(buf, buf', p, w, frames[0], frames[1..], canLoop, w2, tail, tailLoops);
    }
  }

  /** Extend, when the chain starts with a LOOP header. */
  lemma {:induction false} ExtendAtLoop(buf: seq<byte>, buf': seq<byte>, p: int, w: int, frames: seq<seq<byte>>,
                                        w2: int, tail: seq<seq<byte>>, tailLoops: bool)
    requires Spells(buf, p, w, frames, true) && Header(buf, p) == LOOP
    requires AgreeBefore(buf, buf', true, p, w)
    requires Spells(buf', w, w2, tail, tailLoops)
    requires !tailLoops
    ensures Spells(buf', p, w2, frames + tail, true)
    decreases |frames|, 1, 0
  {
    assert Header(buf', p) == LOOP by {
      SliceAgree(buf, buf', p, p + HEADER_SIZE);
    }
    Extend(buf, buf', 0, w, frames, false, w2, tail, tailLoops);
    FoldLoop(buf', p, w2, frames + tail);
  }

  /** Extend, when the chain starts with a frame f whose successor header is
      at next. */
  lemma {:induction false} ExtendAtFrame(buf: seq<byte>, buf': seq<byte>, p: int, w: int, f: seq<byte>,
                                         rest: seq<seq<byte>>, canLoop: bool, w2: int, tail: seq<seq<byte>>,
                                         tailLoops: bool)
    requires 0 <= p && p + HEADER_SIZE + |f| <= |buf| && Header(buf, p) == |f| > 0
    requires buf[p + HEADER_SIZE .. p + HEADER_SIZE + |f|] == f
    requires Spells(buf, p + HEADER_SIZE + |f|, w, rest, canLoop)
    requires !canLoop ==> p + HEADER_SIZE + |f| <= w
    requires AgreeBefore(buf, buf', canLoop, p, w)
    requires Spells(buf', w, w2, tail, tailLoops)
    requires !(canLoop && tailLoops)
    ensures Spells(buf', p, w2, [f] + rest + tail, canLoop || tailLoops)
    decreases |rest| + 1, if canLoop then 1 else 0, 0
  {
    var next := p + HEADER_SIZE + |f|;
    assert Header(buf', p) == |f| && buf'[p + HEADER_SIZE .. next] == f by {
      SliceAgree(buf, buf', p, p + HEADER_SIZE);
      SliceAgree(buf, buf', p + HEADER_SIZE, next);
    }
    assert AgreeBefore(buf, buf', canLoop, next, w) by {
      forall i | 0 <= i < |buf| && Before(canLoop, next, w, i)
        ensures Before(canLoop, p, w, i)
      {
      }
    }
    Extend(buf, buf', next, w, rest, canLoop, w2, tail, tailLoops);
    assert [f] + rest + tail == [f] + (rest + tail);
    FoldFrame(buf', p, w2, f, rest + tail, canLoop || tailLoops);
  }

  /** A LOOP header in front of a straight chain from offset 0. */
  lemma FoldLoop(buf: seq<byte>, p: int, w: int, frames: seq<seq<byte>>)
    requires 0 <= p && p + HEADER_SIZE <= |buf| && Header(buf, p) == LOOP
    requires Spells(buf, 0, w, frames, false)
    ensures Spells(buf, p, w, frames, true)
  {
  }

  /** A frame header and its payload in front of a chain. */
  lemma FoldFrame(buf: seq<byte>, p: int, w: int, f: seq<byte>, rest: seq<seq<byte>>, canLoop: bool)
    requires 0 <= p && p + HEADER_SIZE + |f| <= |buf| && Header(buf, p) == |f| > 0
    requires buf[p + HEADER_SIZE .. p + HEADER_SIZE + |f|] == f
    requires Spells(buf, p + HEADER_SIZE + |f|, w, rest, canLoop)
    ensures Spells(buf, p, w, [f] + rest, canLoop)
  {
    assert ([f] + rest)[1..] == rest;
  }

  /** A chain survives any change of bytes outside it and its STOP header. */
  lemma KeepChain(buf: seq<byte>, buf': seq<byte>, p: int, w: int, frames: seq<seq<byte>>, canLoop: bool)
    requires Spells(buf, p, w, frames, canLoop)
    requires AgreeBefore(buf, buf', canLoop, p, w)
    requires 0 <= w && w + HEADER_SIZE <= |buf| && buf'[w .. w + HEADER_SIZE] == buf[w .. w + HEADER_SIZE]
    ensures Spells(buf', p, w, frames, canLoop)
  {
    assert Spells(buf, w, w, [], false) by {
      assert 0 <= w by {
        if !canLoop { StraightChainEnd(buf, p, w, frames); }
        else { ChainFits(buf, p, w, frames, canLoop); }
      }
      StopAtEnd(buf, p, w, frames, canLoop);
    }
    assert Header(buf', w) == Header(buf, w);
    Extend(buf, buf', p, w, frames, canLoop, w, [], false);
    assert frames + [] == frames;
  }

  /** The header at a chain's end point is STOP. */
  lemma {:induction false} StopAtEnd(buf: seq<byte>, p: int, w: int, frames: seq<seq<byte>>, canLoop: bool)
    requires Spells(buf, p, w, frames, canLoop)
    ensures 0 <= w && w + HEADER_SIZE <= |buf| && Header(buf, w) == STOP
    decreases |frames|, if canLoop then 1 else 0
  {
    var h := Header(buf, p);
    if h == LOOP {
      StopAtEnd(buf, 0, w, frames, false);
    } else if h != STOP {
      StopAtEnd(buf, p + HEADER_SIZE + h, w, frames[1..], canLoop);
    }
  }

  /** What the header at the start of a chain says about the frames: STOP
      only when there are none, LOOP only where wrapping is allowed (and
      then the same frames are spelled from offset 0), and otherwise the
      length and the bytes of the oldest frame. */
  lemma HeadOfChain(buf: seq<byte>, p: int, w: int, frames: seq<seq<byte>>, canLoop: bool)
    requires Spells(buf, p, w, frames, canLoop)
    ensures 0 <= p && p + HEADER_SIZE <= |buf|
    ensures Header(buf, p) == STOP ==> frames == [] && p == w
    ensures Header(buf, p) == LOOP ==> canLoop && Spells(buf, 0, w, frames, false)
    ensures Header(buf, p) != STOP && Header(buf, p) != LOOP ==>
              frames != [] && Header(buf, p) == |frames[0]| > 0
              && p + HEADER_SIZE + |frames[0]| <= |buf|
              && buf[p + HEADER_SIZE .. p + HEADER_SIZE + |frames[0]|] == frames[0]
              && Spells(buf, p + HEADER_SIZE + |frames[0]|, w, frames[1..], canLoop)
  {
    if Header(buf, p) == LOOP {
      HeadOfChain(buf, 0, w, frames, false);
    }
  }

  /** The headers determine the chain: from a given start, at most one end
      point and one sequence of frames is spelled. */
  lemma {:induction false} ChainIsUnique(buf: seq<byte>, p: int, w1: int, frames1: seq<seq<byte>>,
                                         w2: int, frames2: seq<seq<byte>>, canLoop: bool)
    requires Spells(buf, p, w1, frames1, canLoop)
    requires Spells(buf, p, w2, frames2, canLoop)
    ensures w1 == w2 && frames1 == frames2
    decreases |frames1|, if canLoop then 1 else 0
  {
    var h := Header(buf, p);
    if h == LOOP {
      ChainIsUnique(buf, 0, w1, frames1, w2, frames2, false);
    } else if h != STOP {
      ChainIsUnique(buf, p + HEADER_SIZE + h, w1, frames1[1..], w2, frames2[1..], canLoop);
      assert frames1 == [frames1[0]] + frames1[1..];
      assert frames2 == [frames2[0]] + frames2[1..];
    }
  }
}
