/** Clients of the pipe: reading a frame as a consumer does, and the
    sequences of calls that show the behaviour of the source on concrete
    sizes. */
module Scenarios {
  import opened Int32Header
  import opened FrameChain
  import opened Placement
  import opened PipeInvariant
  import opened Pipe

  /** The consumer's read: hasData, getReadBuffer, copy out the payload,
      consume. Yields the oldest frame and drops it, or None when the pipe
      is empty. */
  method ReadFrame(q: TinyPipe) returns (frame: Option<seq<byte>>)
    requires q.Valid()
    modifies q`readHead, q`Frames
    ensures q.Valid()
    ensures old(q.Frames) == [] ==> frame == None && q.Frames == []
    ensures old(q.Frames) != [] ==> frame == Some(old(q.Frames)[0]) && q.Frames == old(q.Frames)[1..]
    ensures old(q.Frames) != [] && old(q.readHead) <= q.writeHead ==>
              q.readHead == old(q.readHead) + HEADER_SIZE + |old(q.Frames)[0]|
  {
    var n := q.HasData();
    if n == 0 {
      return None;
    }
    var start, m := q.GetReadBuffer();
    assert q.buffer[start .. start + m] == q.Contents[start .. start + m];
    frame := Some(q.buffer[start .. start + m]);
    q.Consume();
  }

  /** Calling hasData a second time changes nothing and gives the same
      answer: the first call leaves no LOOP header at the read head. */
  method HasDataTwice(q: TinyPipe) returns (x: int, y: int)
    requires q.Valid()
    modifies q`readHead
    ensures x == y && q.Valid()
  {
    x := q.HasData();
    ghost var r := q.readHead;
    y := q.HasData();
    assert q.readHead == r;
  }

  /** Two frames written into an empty pipe of 40 bytes are read back in
      order and with the same bytes, after which the pipe is empty; the
      total before reading is the sum of their lengths. */
  method WriteTwoReadTwo() returns (first: Option<seq<byte>>, second: Option<seq<byte>>, third: Option<seq<byte>>,
                                    total: int)
    ensures total == 5
    ensures first == Some([1, 2, 3]) && second == Some([4, 5]) && third == None
  {
    var a: seq<byte> := [1, 2, 3];
    var b: seq<byte> := [4, 5];
    var q := new TinyPipe(40);
    var ok := q.Write(a, 3);
    assert a[..3] == a;
    assert ok == 1 && q.writeHead == 7 && q.Frames == [a];
    ok := q.Write(b, 2);
    assert b[..2] == b;
    assert ok == 1 && q.Frames == [a, b];
    total := q.GetTotalData();
    assert SumLengths([b]) == 2;
    first := ReadFrame(q);
    second := ReadFrame(q);
    third := ReadFrame(q);
  }

  /** In a pipe of 40 bytes: two frames of 10 bytes fill it to offset 28;
      after the first is consumed, a frame of 6 bytes does not fit in the 12
      bytes of tail room and wraps to offset 0, behind the reader at 14. The
      reader then gets the second frame, follows the LOOP header at 28 and
      gets the third. */
  method WrapAround() returns (wrappedHead: int, second: Option<seq<byte>>, third: Option<seq<byte>>)
    ensures wrappedHead == 10
    ensures second == Some(seq(10, _ => 2)) && third == Some(seq(6, _ => 3))
  {
    var a: seq<byte> := seq(10, _ => 1);
    var b: seq<byte> := seq(10, _ => 2);
    var c: seq<byte> := seq(6, _ => 3);
    var q := new TinyPipe(40);
    var ok := q.Write(a, 10);
    assert a[..10] == a && b[..10] == b && c[..6] == c;
    assert ok == 1 && q.writeHead == 14 && q.Frames == [a];
    ok := q.Write(b, 10);
    assert ok == 1 && q.writeHead == 28 && q.Frames == [a, b];
    var first := ReadFrame(q);
    assert q.readHead == 14 && q.Frames == [b];
    ok := q.Write(c, 6);
    assert ok == 1 && q.Frames == [b, c];
    wrappedHead := q.writeHead;
    second := ReadFrame(q);
    third := ReadFrame(q);
  }

  /** In a pipe of 32 bytes with one frame of 20 bytes written and consumed,
      both heads are at 24; a second frame of 20 bytes needs 28 bytes, which
      neither the tail room (8) nor the bytes before the read head (24)
      provide, so it is refused and nothing changes. */
  method SecondLargeFrameRefused() returns (ok: int)
    ensures ok == 0
  {
    var q := new TinyPipe(32);
    var data := seq(20, _ => 7);
    ok := q.Write(data, 20);
    assert ok == 1;
    var first := ReadFrame(q);
    assert q.readHead == 24 && q.writeHead == 24;
    ok := q.Write(data, 20);
  }

  /** A pipe of 64 bytes filled with four frames of 10 bytes, up to offset
      56. */
  method FourFrames() returns (q: TinyPipe)
    ensures fresh(q) && fresh(q.buffer) && q.Valid()
    ensures q.len == 64 && q.readHead == 0 && q.writeHead == 56 && |q.Frames| == 4 && |q.Frames[0]| == 10
  {
    var a: seq<byte> := seq(10, _ => 1);
    q := new TinyPipe(64);
    var ok := q.Write(a, 10);
    assert a[..10] == a;
    assert ok == 1 && q.writeHead == 14 && q.Frames == [a];
    ok := q.Write(a, 10);
    assert ok == 1 && q.writeHead == 28;
    ok := q.Write(a, 10);
    assert ok == 1 && q.writeHead == 42;
    ok := q.Write(a, 10);
    assert ok == 1;
  }

  /** The full pipe of FourFrames refuses a fifth frame of 10 bytes. Once
      one frame is consumed, a frame of 6 bytes fits in the 14 bytes freed at
      offset 0 and wraps there, while one of 10 bytes still does not. */
  method FullThenDrain() returns (fifth: int, small: int, large: int)
    ensures fifth == 0 && small == 1 && large == 0
  {
    var q := FourFrames();
    var a: seq<byte> := seq(10, _ => 5);
    fifth := q.Write(a, 10);
    var first := ReadFrame(q);
    assert q.readHead == 14 && q.writeHead == 56;
    large := q.Write(a, 10);
    small := q.Write(a, 6);
  }

  /** The state of Placement.AsWrittenOverwritesReaderHeader is reachable: in
      a pipe of 40 bytes, frames of 10, 2 and 8 bytes, one consume and a
      frame of 2 bytes that wraps leave the write head at 6 behind the read
      head at 14, and there the check as written grants 3 bytes in place
      although the STOP header after them would cover the reader's header. */
  method OverlapIsReachable() returns (w: int, r: int, remaining: int)
    ensures w == 6 && r == 14 && remaining == 34
    ensures DecideAsWritten(40, remaining, w, r, 3) == InPlace
    ensures !RegionFree(40, r, w, w + HEADER_SIZE, w + 2 * HEADER_SIZE + 3)
  {
    var q := new TinyPipe(40);
    var ok := q.Write([1, 1, 1, 1, 1, 1, 1, 1, 1, 1], 10);
    assert ok == 1;
    ok := q.Write([2, 2], 2);
    assert ok == 1;
    ok := q.Write([3, 3, 3, 3, 3, 3, 3, 3], 8);
    assert ok == 1 && q.writeHead == 32;
    var first := ReadFrame(q);
    ok := q.Write([4, 4], 2);
    assert ok == 1;
    w, r, remaining := q.writeHead, q.readHead, q.remainingBytes;
    AsWrittenDiffers(40, remaining, w, r, 3);
    AsWrittenOverwritesReaderHeader();
  }
}
