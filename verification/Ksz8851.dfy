/** The byte streams of the network chip's queues, firmware/ksz8851snl.c. */
module Ksz8851 {
  import opened Machine

  const OP_FIFO_WRITE: uint8 := 0xc0
  const TXFR_TXIC: uint16 := 0x8000
  const FIDS := 0x40

  /** A frame in the transmit queue with its control word. */
  datatype TxFrame = TxFrame(control: uint16, data: seq<uint8>)

  /** The padding that brings a length to a multiple of four. */
  function Pad(n: nat): nat {
    (4 - n % 4) % 4
  }

  /** Two bytes, least significant first. */
  function Le16(x: uint16): seq<uint8> {
    [x % 256, x / 256]
  }

  /** What a frame looks like in the chip's queue. */
  function Framed(f: TxFrame): seq<uint8>
    requires |f.data| < 0x1_0000
  {
    Le16(f.control) + Le16(|f.data|) + f.data + Zeros(Pad(|f.data|))
  }

  predicate Small(frames: seq<TxFrame>) {
    forall i :: 0 <= i < |frames| ==> |frames[i].data| < 0x1_0000
  }

  function Stream(frames: seq<TxFrame>): seq<uint8>
    requires Small(frames)
  {
    if frames == [] then [] else Framed(frames[0]) + Stream(frames[1..])
  }

  /** The chip's reading of its queue: length words say where frames end; None for a truncated queue. */
  function Unframe(stream: seq<uint8>): Option<seq<TxFrame>>
    decreases |stream|
  {
    if stream == [] then Some([])
    else if |stream| < 4 then None
    else
      var n := Word(stream[3], stream[2]);
      var end := 4 + n + Pad(n);
      if |stream| < end then None
      else
        match Unframe(stream[end..])
        case None => None
        case Some(rest) => Some([TxFrame(Word(stream[1], stream[0]), stream[4..4 + n])] + rest)
  }

  /** Whatever the frames' lengths and contents, the chip finds exactly the frames that were written. */
  lemma {:induction false} FramesAreFound(frames: seq<TxFrame>)
    requires Small(frames)
    ensures Unframe(Stream(frames)) == Some(frames)
    decreases |frames|
  {
    if frames == [] {
    } else {
      var f := frames[0];
      var head, rest, s := Framed(f), Stream(frames[1..]), Stream(frames);
      FramesAreFound(frames[1..]);
      HeadIsFound(f, rest);
      assert s == head + rest && s[|head|..] == rest;
      assert [f] + frames[1..] == frames;
    }
  }

  lemma HeadIsFound(f: TxFrame, rest: seq<uint8>)
    requires |f.data| < 0x1_0000
    ensures var s := Framed(f) + rest;
      && |s| >= 4 && Word(s[1], s[0]) == f.control && Word(s[3], s[2]) == |f.data|
      && |Framed(f)| == 4 + |f.data| + Pad(|f.data|) && s[4..4 + |f.data|] == f.data
  {
    LittleEndian(f.control);
    LittleEndian(|f.data|);
  }

  lemma LittleEndian(x: uint16)
    ensures Word(Le16(x)[1], Le16(x)[0]) == x
  {}

  /** A frame waiting in the receive queue: its byte count, and its bytes. */
  datatype RxFrame = RxFrame(count: uint16, bytes: seq<uint8>)

  /** The number of bytes taken of a frame. */
  function Taken(f: RxFrame): nat {
    f.count - f.count % 4
  }

  predicate Complete(frames: seq<RxFrame>) {
    |frames| < 0x100 && forall i :: 0 <= i < |frames| ==> |frames[i].bytes| == Taken(frames[i])
  }

  /** The frame goes into the buffer. */
  predicate Stored(frames: seq<RxFrame>, limit: uint16) {
    frames != [] && 4 < frames[0].count <= limit
  }

  /** The result after the frames have been taken off the queue one by one: each that is not empty
      decides it anew, and only the first can make it other than 0. */
  function Returned(frames: seq<RxFrame>, limit: uint16): nat {
    if frames == [] then 0
    else
      var n := |frames| - 1;
      if frames[n].count <= 4 then Returned(frames[..n], limit)
      else if n == 0 && frames[n].count <= limit then Taken(frames[n])
      else 0
  }

  class Chip {
    /** The identification of the last frame sent. */
    var fid: uint16
    /** What the chip has been given for its transmit queue. */
    ghost var queue: seq<uint8>
    ghost var frames: seq<TxFrame>

    ghost predicate Valid()
      reads this
    {
      fid < FIDS && Small(frames) && queue == Stream(frames)
    }

    constructor ()
      ensures Valid() && frames == [] && fid == 0
    {
      fid, queue, frames := 0, [], [];
    }

    method SpiIo(b: uint8)
      modifies this`queue
      ensures queue == old(queue) + [b]
    {
      queue := queue + [b];
    }

    /** `ksz8851_write_fifo`, after its command byte. */
    method WriteFifo(buf: array<uint8>, length: uint16)
      requires Valid() && length <= buf.Length
      modifies this
      ensures Valid() && fid == (old(fid) + 1) % FIDS
      ensures frames == old(frames) + [TxFrame(fid + TXFR_TXIC, buf[..length])]
    {
      hide Stream;
      ghost var was := queue;
      fid := (fid + 1) % FIDS;
      var control := fid + TXFR_TXIC;
      SpiIo(control % 256);
      SpiIo(control / 256);
      SpiIo(length % 256);
      SpiIo(length / 256);
      ghost var header := Le16(control) + Le16(length);
      assert queue == was + header;
      var i := 0;
      while i < length
        invariant i <= length && fid == (old(fid) + 1) % FIDS && frames == old(frames)
        invariant queue == was + header + buf[..i]
      {
        SpiIo(buf[i]);
        i := i + 1;
      }
      ghost var data := buf[..length];
      ghost var k := 0;
      while i % 4 != 0
        invariant k <= Pad(length) && i == length + k
        invariant fid == (old(fid) + 1) % FIDS && frames == old(frames)
        invariant queue == was + header + data + Zeros(k)
        decreases Pad(length) - k
      {
        PadMore(length, k);
        SpiIo(0);
        i := i + 1;
        k := k + 1;
      }
      PadDone(length, k);
      var f := TxFrame(control, data);
      assert header + data + Zeros(k) == Framed(f);
      assert queue == was + Framed(f);
      frames := frames + [f];
      StreamSnoc(old(frames), f);
    }

    /** `ksz8851_read_packet`: the chip's receive queue is emptied. */
    method ReadPacket(waiting: seq<RxFrame>, buf: array<uint8>, limit: uint16) returns (ret: nat)
      requires Complete(waiting) && limit <= buf.Length
      modifies buf
      ensures ret == Returned(waiting, limit)
      ensures buf[..] == if Stored(waiting, limit) then Splice(old(buf[..]), 0, waiting[0].bytes) else old(buf[..])
    {
      ret := 0;
      var i := 0;
      while i < |waiting|
        invariant i <= |waiting|
        invariant ret == Returned(waiting[..i], limit)
        invariant buf[..] ==
          if i > 0 && Stored(waiting, limit) then Splice(old(buf[..]), 0, waiting[0].bytes) else old(buf[..])
      {
        var rxlen := waiting[i].count;
        if rxlen > 4 {
          if i == 0 && rxlen <= limit {
            MemCpy(buf, 0, waiting[i].bytes);
            ret := rxlen - rxlen % 4;
          } else {
            ret := 0;
          }
        }
        assert waiting[..i + 1][..i] == waiting[..i];
        i := i + 1;
      }
      assert waiting[..i] == waiting;
    }
  }

  lemma PadMore(n: nat, k: nat)
    requires k <= Pad(n) && (n + k) % 4 != 0
    ensures k < Pad(n)
  {}

  lemma PadDone(n: nat, k: nat)
    requires k <= Pad(n) && (n + k) % 4 == 0
    ensures k == Pad(n)
  {}

  lemma {:induction false} StreamSnoc(frames: seq<TxFrame>, f: TxFrame)
    requires Small(frames) && |f.data| < 0x1_0000
    ensures Small(frames + [f]) && Stream(frames + [f]) == Stream(frames) + Framed(f)
    decreases |frames|
  {
    hide Framed;
    if frames == [] {
      assert Stream([f][1..]) == [];
    } else {
      StreamSnoc(frames[1..], f);
      assert (frames + [f])[1..] == frames[1..] + [f];
    }
  }

  /** No frame after the first holds anything. */
  predicate Lone(frames: seq<RxFrame>) {
    forall i :: 1 <= i < |frames| ==> frames[i].count <= 4
  }

  /** A frame is handed to the caller exactly if it is the first, fits, and is the only one waiting that
      is not empty; then it is handed whole. */
  lemma {:induction false} HandedExactly(frames: seq<RxFrame>, limit: uint16)
    ensures Returned(frames, limit) != 0 <==> Stored(frames, limit) && Lone(frames)
    ensures Returned(frames, limit) != 0 ==>
      Returned(frames, limit) % 4 == 0 && frames[0].count - 4 < Returned(frames, limit) <= frames[0].count
    decreases |frames|
  {
    if |frames| <= 1 {
    } else {
      var front := frames[..|frames| - 1];
      HandedExactly(front, limit);
      assert front[0] == frames[0];
      assert Lone(frames) <==> Lone(front) && frames[|frames| - 1].count <= 4;
    }
  }

  // ----- Over many polls -----

  /** The frames that hold something, of all that wait. */
  function Arrived(frames: seq<RxFrame>): seq<seq<uint8>> {
    if frames == [] then []
    else (if frames[0].count > 4 then [frames[0].bytes] else []) + Arrived(frames[1..])
  }

  /** What one poll hands over. */
  function Handed(frames: seq<RxFrame>, limit: uint16): seq<seq<uint8>> {
    if frames != [] && Returned(frames, limit) != 0 then [frames[0].bytes] else []
  }

  /** The frames that have come between the polls, each element what one poll finds. */
  function AllArrived(polls: seq<seq<RxFrame>>): seq<seq<uint8>> {
    if polls == [] then [] else Arrived(polls[0]) + AllArrived(polls[1..])
  }

  function AllHanded(polls: seq<seq<RxFrame>>, limit: uint16): seq<seq<uint8>> {
    if polls == [] then [] else Handed(polls[0], limit) + AllHanded(polls[1..], limit)
  }

  /** The poll finds nothing, or one frame, the first, that fits. */
  predicate Harmless(frames: seq<RxFrame>, limit: uint16) {
    Lone(frames) && (frames != [] && frames[0].count > 4 ==> frames[0].count <= limit)
  }

  lemma {:induction false} ArrivedNone(frames: seq<RxFrame>)
    ensures Arrived(frames) == [] <==> forall i :: 0 <= i < |frames| ==> frames[i].count <= 4
  {
    if frames == [] {
    } else {
      ArrivedNone(frames[1..]);
      assert forall i :: 0 < i < |frames| ==> frames[i] == frames[1..][i - 1];
    }
  }

  lemma PollLoses(frames: seq<RxFrame>, limit: uint16)
    ensures |Handed(frames, limit)| <= |Arrived(frames)|
    ensures Handed(frames, limit) == Arrived(frames) <==> Harmless(frames, limit)
    ensures |Handed(frames, limit)| == |Arrived(frames)| <==> Harmless(frames, limit)
  {
    HandedExactly(frames, limit);
    if frames != [] {
      ArrivedNone(frames[1..]);
      assert forall i :: 0 < i < |frames| ==> frames[i] == frames[1..][i - 1];
      if Lone(frames) {
        assert Arrived(frames[1..]) == [];
      }
    }
  }

  /** Over any number of polls no frame is lost exactly if every poll has found at most one frame that
      holds anything, in the first place and not too long for the buffer. */
  lemma {:induction false} NoneLostExactly(polls: seq<seq<RxFrame>>, limit: uint16)
    ensures |AllHanded(polls, limit)| <= |AllArrived(polls)|
    ensures AllHanded(polls, limit) == AllArrived(polls) <==>
      forall i :: 0 <= i < |polls| ==> Harmless(polls[i], limit)
  {
    hide Harmless, Handed, Arrived;
    if polls == [] {
    } else {
      PollLoses(polls[0], limit);
      NoneLostExactly(polls[1..], limit);
      assert forall i :: 0 < i < |polls| ==> polls[i] == polls[1..][i - 1];
      var a, b := Handed(polls[0], limit), Arrived(polls[0]);
      var c, d := AllHanded(polls[1..], limit), AllArrived(polls[1..]);
      assert AllHanded(polls, limit) == a + c && AllArrived(polls) == b + d;
      if a + c == b + d && |a| == |b| {
        assert c == (a + c)[|a|..] == (b + d)[|b|..] == d;
      }
    }
  }
}
