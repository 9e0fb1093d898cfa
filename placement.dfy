/** Where tpipe_getWriteBuffer puts a new frame. The decision depends only on
    the buffer length, the tail room, the two heads and the requested payload
    size, so it is stated here as a pure function, together with what it
    means: the bytes it hands out hold no unconsumed data. */
module Placement {
  import opened Int32Header
  import opened FrameChain

  datatype Placement = NoSpace | InPlace | Wraparound

  /** The layout facts the pipe keeps between calls: both heads have room for
      a header, the tail room is what lies past the write head, and a write
      head behind the read head leaves the reader's header alone. */
  predicate Layout(len: int, remaining: int, w: int, r: int) {
    0 <= w && w + HEADER_SIZE <= len && remaining == len - w &&
    0 <= r && r + HEADER_SIZE <= len &&
    (w < r ==> w + HEADER_SIZE <= r)
  }

  /** The chain from r may wrap exactly when the writer is behind the reader. */
  predicate Wrapped(r: int, w: int) {
    w < r
  }

  /** Offset i holds unconsumed data or the STOP header: the bytes of the
      chain from r up to and including its STOP header at w. */
  ghost predicate Pending(len: int, r: int, w: int, i: int) {
    0 <= i < len && (Before(Wrapped(r, w), r, w, i) || w <= i < w + HEADER_SIZE)
  }

  /** [a, b) is inside the buffer and holds nothing pending. */
  ghost predicate RegionFree(len: int, r: int, w: int, a: int, b: int) {
    0 <= a <= b <= len && forall i :: a <= i < b ==> !Pending(len, r, w, i)
  }

  /** How far the writer may go from w without touching the reader: up to the
      read head when behind it, else to the end of the buffer. */
  function Limit(len: int, r: int, w: int): int {
    if Wrapped(r, w) then r else len
  }

  /** The decision of tpipe_getWriteBuffer for a payload of n bytes, with the
      in-place overwrite test corrected to cover the STOP header written after
      the payload (see DecideAsWritten). */
  function Decide(len: int, remaining: int, w: int, r: int, n: int): (p: Placement)
    ensures p == InPlace ==> n + 2 * HEADER_SIZE <= remaining && (w < r ==> w + 2 * HEADER_SIZE + n <= r)
    ensures p == Wraparound ==> remaining < n + 2 * HEADER_SIZE && r <= w && n + 2 * HEADER_SIZE <= r
  {
    var total := n + 2 * HEADER_SIZE;
    if total <= remaining then
      var newWriteHead := w + HEADER_SIZE + n;
      if w < r && newWriteHead + HEADER_SIZE > r then NoSpace else InPlace
    else if total <= len then
      if w < r || total > r then NoSpace else Wraparound
    else
      NoSpace
  }

  /** The decision as tinypipe.c writes it: the in-place branch refuses only
      when the new write head itself reaches the read head. */
  function DecideAsWritten(len: int, remaining: int, w: int, r: int, n: int): (p: Placement)
    ensures p == InPlace ==> n + 2 * HEADER_SIZE <= remaining && (w < r ==> w + HEADER_SIZE + n < r)
    ensures p == Wraparound ==> remaining < n + 2 * HEADER_SIZE && r <= w && n + 2 * HEADER_SIZE <= r
  {
    var total := n + 2 * HEADER_SIZE;
    if total <= remaining then
      var newWriteHead := w + HEADER_SIZE + n;
      if w < r && newWriteHead >= r then NoSpace else InPlace
    else if total <= len then
      if w < r || total > r then NoSpace else Wraparound
    else
      NoSpace
  }

  /** Decide is first fit over the free space: it answers InPlace exactly when
      the payload and the STOP after it fit in free bytes right after the
      current STOP header, Wraparound exactly when they do not but fit in free
      bytes from offset 0, and NoSpace exactly when neither fits. */
  lemma DecideIsFirstFit(len: int, remaining: int, w: int, r: int, n: int)
    requires Layout(len, remaining, w, r) && 0 <= n
    ensures Decide(len, remaining, w, r, n) == InPlace
            <==> RegionFree(len, r, w, w + HEADER_SIZE, w + 2 * HEADER_SIZE + n)
    ensures Decide(len, remaining, w, r, n) == Wraparound
            <==> !RegionFree(len, r, w, w + HEADER_SIZE, w + 2 * HEADER_SIZE + n)
                 && RegionFree(len, r, w, 0, n + 2 * HEADER_SIZE)
  {
    var inPlaceEnd := w + 2 * HEADER_SIZE + n;
    var d := Decide(len, remaining, w, r, n);
    if d != InPlace {
      // a witness that the in-place region is not free
      if inPlaceEnd <= len {
        assert w < r && inPlaceEnd > r;
        assert Pending(len, r, w, r);
      }
    } else {
      assert forall i :: w + HEADER_SIZE <= i < inPlaceEnd ==> !Pending(len, r, w, i);
    }
    if d == Wraparound {
      assert forall i :: 0 <= i < n + 2 * HEADER_SIZE ==> !Pending(len, r, w, i);
    } else if n + 2 * HEADER_SIZE <= len && d != InPlace {
      // a witness that the region at offset 0 is not free
      if w < r {
        assert Pending(len, r, w, 0);
      } else {
        assert Pending(len, r, w, r);
      }
    }
  }

  /** The two decisions differ exactly when the writer is behind the reader
      and the new write head stops one to three bytes short of the read head:
      then the four-byte STOP header written there overlaps the reader's
      header. */
  lemma AsWrittenDiffers(len: int, remaining: int, w: int, r: int, n: int)
    requires Layout(len, remaining, w, r) && 0 <= n
    ensures DecideAsWritten(len, remaining, w, r, n) != Decide(len, remaining, w, r, n)
            <==> w < r && n + 2 * HEADER_SIZE <= remaining
                 && r - HEADER_SIZE < w + HEADER_SIZE + n < r
    ensures DecideAsWritten(len, remaining, w, r, n) != Decide(len, remaining, w, r, n)
            ==> DecideAsWritten(len, remaining, w, r, n) == InPlace
                && !RegionFree(len, r, w, w + HEADER_SIZE, w + 2 * HEADER_SIZE + n)
  {
    if DecideAsWritten(len, remaining, w, r, n) != Decide(len, remaining, w, r, n) {
      assert Pending(len, r, w, r);
    }
  }

  /** A state the pipe reaches (see Scenarios.OverlapIsReachable) in which
      the check as written grants three bytes in place, although the STOP
      header that tpipe_produce then writes at offsets 13 to 16 covers the
      reader's header at 14. That header holds the length 2; with the
      little-endian headers of this model (a little-endian target), three of
      its four bytes zeroed make it read as STOP: the reader stops there and
      the frames behind it are lost. */
  lemma AsWrittenOverwritesReaderHeader()
    ensures DecideAsWritten(40, 34, 6, 14, 3) == InPlace
    ensures Decide(40, 34, 6, 14, 3) == NoSpace
    ensures Pending(40, 14, 6, 14) && 6 + HEADER_SIZE + 3 <= 14 < 6 + 2 * HEADER_SIZE + 3
    ensures DecodeInt32(EncodeInt32(STOP)[1..] + EncodeInt32(2)[3..]) == STOP
  {
    assert EncodeInt32(STOP)[1..] + EncodeInt32(2)[3..] == [0, 0, 0, 0];
    StopIsZeroBytes([0, 0, 0, 0]);
  }

  /** The STOP header that tpipe_produce writes after n payload bytes lands on
      no pending byte, as long as the payload and that header stay below the
      writer's limit. */
  lemma CommitTouchesNoPending(len: int, r: int, w: int, n: int)
    requires Layout(len, len - w, w, r) && 0 < n
    requires w + 2 * HEADER_SIZE + n <= Limit(len, r, w)
    ensures forall i :: Pending(len, r, w, i) ==> !(w + HEADER_SIZE <= i < w + 2 * HEADER_SIZE + n)
  {
  }

  /** Filling bytes [a, b) of free space past the STOP header keeps the
      chain. */
  lemma FillKeepsChain(before: seq<byte>, after: seq<byte>, r: int, w: int, frames: seq<seq<byte>>, a: int, b: int)
    requires Spells(before, r, w, frames, Wrapped(r, w))
    requires w + HEADER_SIZE <= a <= b && (a == b || b + HEADER_SIZE <= Limit(|before|, r, w))
    requires |after| == |before|
    requires forall i :: 0 <= i < |after| && !(a <= i < b) ==> after[i] == before[i]
    ensures Spells(after, r, w, frames, Wrapped(r, w))
  {
    StopAtEnd(before, r, w, frames, Wrapped(r, w));
    SliceAgree(before, after, w, w + HEADER_SIZE);
    if !Wrapped(r, w) {
      StraightChainEnd(before, r, w, frames);
    }
    KeepChain(before, after, r, w, frames, Wrapped(r, w));
  }

  /** The wraparound of tpipe_getWriteBuffer keeps the queue: with STOP
      written at offset 0 and LOOP over the old STOP header at w, the chain
      from r spells the same frames, now wrapping, and ends at offset 0. */
  lemma WrapKeepsChain(before: seq<byte>, after: seq<byte>, r: int, w: int, frames: seq<seq<byte>>)
    requires Spells(before, r, w, frames, false)
    requires r <= w && 2 * HEADER_SIZE <= r
    requires StoredTwo(before, after, 0, STOP, w, LOOP)
    ensures Spells(after, r, 0, frames, true)
  {
    StoredTwoKeeps(before, after, 0, STOP, w, LOOP);
    assert Spells(after, w, 0, [], true);
    Extend(before, after, r, w, frames, false, 0, [], true);
    assert frames + [] == frames;
  }

  /** The commit of tpipe_produce appends the frame: with the payload at
      [w + 4, w2), STOP written at w2 and the length over the old STOP header
      at w, the chain from r spells frames + [payload] and ends at w2. */
  lemma CommitKeepsChain(before: seq<byte>, after: seq<byte>, r: int, w: int, frames: seq<seq<byte>>, n: int)
    requires Spells(before, r, w, frames, Wrapped(r, w))
    requires Layout(|before|, |before| - w, w, r) && 0 < n
    requires w + 2 * HEADER_SIZE + n <= Limit(|before|, r, w)
    requires StoredTwo(before, after, w, n, w + HEADER_SIZE + n, STOP)
    ensures Wrapped(r, w + HEADER_SIZE + n) == Wrapped(r, w)
    ensures Spells(after, r, w + HEADER_SIZE + n, frames + [before[w + HEADER_SIZE .. w + HEADER_SIZE + n]], Wrapped(r, w))
  {
    var w2 := w + HEADER_SIZE + n;
    var c := Wrapped(r, w);
    var payload := before[w + HEADER_SIZE .. w2];
    assert Spells(after, w, w2, [payload], false) by {
      assert Spells(after, w2, w2, [], false);
      FoldFrame(after, w, w2, payload, [], false);
      assert [payload] + [] == [payload];
    }
    assert AgreeBefore(before, after, c, r, w) by {
      StoredTwoKeeps(before, after, w, n, w2, STOP);
      if !c {
        StraightChainEnd(before, r, w, frames);
      }
    }
    Extend(before, after, r, w, frames, c, w2, [payload], false);
  }
}
