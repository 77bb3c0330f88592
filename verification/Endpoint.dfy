/**
 A transfer on a USB endpoint: `usb_io` of firmware/usb/usb.c and the packet loops of
 firmware/usb/atu2.c, byte by byte, and what a whole run of packets amounts to.
 */
module Endpoint {
  import opened Machine

  /** The functions the firmware passes as callbacks, with what they will act on: `DoBufWrite` on the bytes
      stored in front of the received ones and the total to write, `BlockWrite` on a block of the download. */
  datatype Callback =
    | Nothing
    | EnableAddr
    | UsbIn
    | DoBufWrite(header: seq<uint8>, size: uint8)
    | BlockWrite(ordinal: nat)

  /** The function pointer alone. */
  datatype Routine = NoRoutine | EnableAddrRoutine | UsbInRoutine | DoBufWriteRoutine | BlockWriteRoutine

  function RoutineOf(c: Callback): Routine {
    match c
    case Nothing => NoRoutine
    case EnableAddr => EnableAddrRoutine
    case UsbIn => UsbInRoutine
    case DoBufWrite(_, _) => DoBufWriteRoutine
    case BlockWrite(_) => BlockWriteRoutine
  }

  /** What the fields of an `ep_descr` stand for: the bytes received so far and the number wanted, or
      the bytes left to send. */
  datatype Transfer =
    | Idle
    | Rx(got: seq<uint8>, want: nat, callback: Callback)
    | Tx(left: seq<uint8>, callback: Callback)

  datatype Mode = EpIdle | EpRx | EpTx

  /** The bytes of the next packet to the host. */
  function NextPacket(left: seq<uint8>, size: nat): seq<uint8> {
    if |left| < size then left else left[..size]
  }

  /** The transfer after that packet: only a packet that is not full ends it. */
  function AfterPacket(t: Transfer, size: nat): Transfer
    requires t.Tx?
  {
    if |t.left| < size then Idle else t.(left := t.left[size..])
  }

  predicate Fits(t: Transfer, packet: seq<uint8>)
    requires t.Rx?
  {
    |t.got| + |packet| <= t.want
  }

  /** The transfer after a packet that fits. */
  function AfterReceive(t: Transfer, packet: seq<uint8>): Transfer
    requires t.Rx? && Fits(t, packet)
  {
    if |t.got| + |packet| == t.want then Idle else t.(got := t.got + packet)
  }

  class EpDescr {
    const size: nat
    var state: Mode
    var mem: array<uint8>
    // Indices into `mem` for the pointers `buf` and `end`.
    var buf: nat
    var end: nat
    var callback: Routine
    /** Where the transfer began, and what its callback stands for. */
    ghost var start: nat
    ghost var meaning: Callback

    ghost predicate Valid()
      reads this
    {
      start <= buf <= end <= mem.Length && callback == RoutineOf(meaning)
    }

    ghost function Value(): Transfer
      requires Valid()
      reads this, mem
    {
      match state
      case EpIdle => Idle
      case EpRx => Rx(mem[start..buf], end - start, meaning)
      case EpTx => Tx(mem[buf..end], meaning)
    }

    lemma ValueFollowsState()
      requires Valid()
      ensures Value() == Idle <==> state == EpIdle
      ensures Value().Rx? <==> state == EpRx
      ensures Value().Tx? <==> state == EpTx
      ensures Value().Tx? ==> Value().callback == meaning
    {}

    constructor (size: nat, mem: array<uint8>)
      ensures Valid() && this.size == size && this.mem == mem && state == EpIdle
    {
      this.size := size;
      this.mem := mem;
      state, callback, buf, end, start, meaning := EpIdle, NoRoutine, 0, 0, 0, Nothing;
    }

    /** `usb_io`: panics, and does nothing else, if the endpoint is busy. */
    method Io(mode: Mode, mem: array<uint8>, off: nat, size: uint8, callback: Routine, ghost meaning: Callback)
      returns (panic: bool)
      requires Valid() && off + size <= mem.Length && mode != EpIdle && callback == RoutineOf(meaning)
      modifies this
      ensures Valid() && panic == (old(Value()) != Idle)
      ensures panic ==> Value() == old(Value()) && this.mem == old(this.mem)
      ensures !panic ==> this.mem == mem && state == mode && start == off && end == off + size
      ensures !panic ==> this.meaning == meaning
      ensures !panic ==> Value() == if mode == EpRx then Rx([], size, meaning) else Tx(mem[off..off + size], meaning)
    {
      if state != EpIdle {
        return true;
      }
      panic := false;
      state := mode;
      this.mem := mem;
      buf := off;
      end := off + size;
      this.callback := callback;
      start := off;
      this.meaning := meaning;
    }

    /** The part of `ep_rx` that stores a packet: nothing is ever written outside the buffer. */
    method StorePacket(packet: seq<uint8>) returns (ok: bool)
      requires Valid() && state == EpRx
      modifies this, mem
      ensures Valid() && mem == old(mem) && meaning == old(meaning) && start == old(start) && end == old(end)
      ensures ok <==> Fits(old(Value()), packet)
      ensures !ok ==> mem[..] == old(mem[..]) && Value() == old(Value())
      ensures ok ==> old(buf) + |packet| <= end && mem[..] == Splice(old(mem[..]), old(buf), packet)
      ensures ok ==> Value() == AfterReceive(old(Value()), packet)
      ensures ok && Value() == Idle ==> mem[start..end] == old(Value()).got + packet
    {
      if |packet| > end - buf {
        return false;
      }
      ok := true;
      var i := 0;
      while i < |packet|
        invariant 0 <= i <= |packet| && buf == old(buf) + i
        invariant mem == old(mem) && start == old(start) && end == old(end) && state == EpRx
        invariant callback == old(callback) && meaning == old(meaning)
        invariant forall j :: 0 <= j < mem.Length ==>
          mem[j] == if old(buf) <= j < old(buf) + i then packet[j - old(buf)] else old(mem[j])
      {
        mem[buf] := packet[i];
        buf := buf + 1;
        i := i + 1;
      }
      assert mem[start..buf] == old(mem[start..buf]) + packet;
      if buf == end {
        state := EpIdle;
      }
    }

    /** `ep_tx`: the bytes of the next packet. */
    method SendPacket() returns (packet: seq<uint8>)
      requires Valid() && state == EpTx
      modifies this
      ensures Valid() && mem == old(mem) && meaning == old(meaning)
      ensures packet == NextPacket(old(Value()).left, size)
      ensures Value() == AfterPacket(old(Value()), size)
    {
      var n := end - buf;
      if n > size {
        n := size;
      }
      packet := [];
      while |packet| < n
        invariant |packet| <= n && buf == old(buf) + |packet| && buf <= end
        invariant mem == old(mem) && start == old(start) && end == old(end) && state == EpTx
        invariant callback == old(callback) && meaning == old(meaning)
        invariant packet == mem[old(buf)..buf]
      {
        packet := packet + [mem[buf]];
        buf := buf + 1;
      }
      ghost var all := mem[..];
      assert mem[old(buf)..buf] == all[old(buf)..buf] && mem[old(buf)..end] == all[old(buf)..end];
      assert mem[buf..end] == all[buf..end];
      SliceOfSlice(all, old(buf), end, n);
      if n == size {
        return;
      }
      state := EpIdle;
    }
  }

  lemma SliceOfSlice<T>(s: seq<T>, lo: nat, hi: nat, n: nat)
    requires lo + n <= hi <= |s|
    ensures s[lo..hi][..n] == s[lo..lo + n] && s[lo..hi][n..] == s[lo + n..hi]
  {}

  // ----- Sending a buffer -----

  function Concat(packets: seq<seq<uint8>>): seq<uint8> {
    if packets == [] then [] else packets[0] + Concat(packets[1..])
  }

  /** What TXINI events make an endpoint do. */
  datatype Action = Packet(bytes: seq<uint8>) | Call(callback: Callback)

  /** One TXINI event. */
  function Txini(t: Transfer, size: nat): (Transfer, seq<Action>) {
    if !t.Tx? then (t, [])
    else
      var u := AfterPacket(t, size);
      (u, [Packet(NextPacket(t.left, size))] + if u == Idle && t.callback != Nothing then [Call(t.callback)] else [])
  }

  /** What `k` of them do. */
  function TxRun(t: Transfer, size: nat, k: nat): (Transfer, seq<Action>)
    decreases k
  {
    if k == 0 then (t, [])
    else
      var (u, a) := Txini(t, size);
      var (v, b) := TxRun(u, size, k - 1);
      (v, a + b)
  }

  function Packets(packets: seq<seq<uint8>>): (r: seq<Action>)
    ensures |r| == |packets| && forall i :: 0 <= i < |r| ==> r[i] == Packet(packets[i])
  {
    seq(|packets|, i requires 0 <= i < |packets| => Packet(packets[i]))
  }

  /** A full packet each, and then one that is not full, possibly empty. */
  predicate Chopped(packets: seq<seq<uint8>>, size: nat) {
    && packets != []
    && (forall i :: 0 <= i < |packets| - 1 ==> |packets[i]| == size)
    && |packets[|packets| - 1]| < size
  }

  /** How many packets it takes. */
  function Count(n: nat, size: nat): nat
    requires size > 0
  {
    n / size + 1
  }

  lemma CountLess(n: nat, size: nat)
    requires size > 0
    ensures n < size ==> Count(n, size) == 1
    ensures n >= size ==> Count(n, size) == Count(n - size, size) + 1
  {
    if n >= size {
      DivUnique(n, size, (n - size) / size + 1, (n - size) % size);
    }
  }

  lemma DivUnique(n: nat, d: nat, q: nat, r: nat)
    requires d > 0 && r < d && n == q * d + r
    ensures n / d == q
  {
    var p := n / d;
    assert p < q ==> (p + 1) * d <= q * d;
    assert p > q ==> (q + 1) * d <= p * d;
  }

  /**
   Sending a buffer of n bytes on an endpoint of size s takes exactly n / s + 1 packets. All are full
   but the last, which is shorter; together they are the buffer. The callback runs once, after the last
   packet, and later events do nothing.
   */
  lemma {:induction false} SendsBuffer(left: seq<uint8>, callback: Callback, size: nat, k: nat)
    returns (packets: seq<seq<uint8>>)
    requires size > 0 && k >= Count(|left|, size)
    ensures |packets| == Count(|left|, size) && Chopped(packets, size) && Concat(packets) == left
    ensures TxRun(Tx(left, callback), size, k)
         == (Idle, Packets(packets) + if callback == Nothing then [] else [Call(callback)])
    decreases |left|
  {
    hide TxRun, Txini, Count, Packets;
    CountLess(|left|, size);
    SendsOne(left, callback, size, k);
    var tail := if callback == Nothing then [] else [Call(callback)];
    if |left| < size {
      packets := [left];
      PacketsCons(left, []);
      assert packets[1..] == [] && [left] + [] == packets;
      assert [Packet(left)] + [] == [Packet(left)];
    } else {
      var rest := SendsBuffer(left[size..], callback, size, k - 1);
      packets := [left[..size]] + rest;
      PacketsCons(left[..size], rest);
      Assoc([Packet(left[..size])], Packets(rest), tail);
      assert packets[1..] == rest;
      assert left == left[..size] + left[size..];
    }
  }

  lemma PacketsCons(p: seq<uint8>, rest: seq<seq<uint8>>)
    ensures Packets([p] + rest) == [Packet(p)] + Packets(rest)
    ensures Packets([]) == []
  {}

  lemma SendsOne(left: seq<uint8>, callback: Callback, size: nat, k: nat)
    requires size > 0 && k > 0
    ensures TxRun(Tx(left, callback), size, k) ==
      if |left| < size then (Idle, [Packet(left)] + if callback == Nothing then [] else [Call(callback)])
      else
        var (t, rest) := TxRun(Tx(left[size..], callback), size, k - 1);
        (t, [Packet(left[..size])] + rest)
  {
    var (u, a) := Txini(Tx(left, callback), size);
    assert TxRun(Tx(left, callback), size, k).1 == a + TxRun(u, size, k - 1).1;
    if |left| < size {
      IdleSendsNothing(size, k - 1);
      assert a + [] == a == [Packet(left)] + if callback == Nothing then [] else [Call(callback)];
    } else {
      assert a == [Packet(left[..size])] + [] == [Packet(left[..size])];
    }
  }

  lemma {:induction false} IdleSendsNothing(size: nat, k: nat)
    ensures TxRun(Idle, size, k) == (Idle, [])
  {
    if k == 0 {
    } else {
      IdleSendsNothing(size, k - 1);
      assert TxRun(Idle, size, k).1 == [] + [] == [];
    }
  }

  // ----- Receiving into a buffer -----

  /** An OUT packet: the transfer afterwards, whether the packet was stalled, and the completed buffer. */
  function Rxouti(t: Transfer, packet: seq<uint8>): (Transfer, bool, Option<seq<uint8>>) {
    if !t.Rx? || !Fits(t, packet) then (Idle, true, None)
    else
      var u := AfterReceive(t, packet);
      (u, false, if u == Idle then Some(t.got + packet) else None)
  }

  /** What OUT packets do: the transfer, how many were accepted, and the buffers completed. */
  function RxRun(t: Transfer, packets: seq<seq<uint8>>): (Transfer, nat, seq<seq<uint8>>)
    decreases |packets|
  {
    if packets == [] then (t, 0, [])
    else
      var (u, stalled, done) := Rxouti(t, packets[0]);
      var (v, n, rest) := RxRun(u, packets[1..]);
      (v, if stalled then n else n + 1, (if done.Some? then [done.value] else []) + rest)
  }

  /** The packets do not bring the number of bytes wanted; before the first packet nothing has. */
  predicate Short(got: seq<uint8>, packets: seq<seq<uint8>>, want: nat) {
    packets == [] || |got| + |Concat(packets)| < want
  }

  lemma {:induction false} IdleStalls(packets: seq<seq<uint8>>)
    ensures RxRun(Idle, packets) == (Idle, 0, [])
    decreases |packets|
  {
    if packets == [] {
    } else {
      IdleStalls(packets[1..]);
      assert RxRun(Idle, packets).2 == [] + [] == [];
    }
  }

  lemma ConcatTake(packets: seq<seq<uint8>>, i: nat)
    requires 1 <= i <= |packets|
    ensures Concat(packets[..i]) == packets[0] + Concat(packets[1..][..i - 1])
  {
    assert packets[..i][1..] == packets[1..][..i - 1];
  }

  /**
   For every sequence of OUT packets, with `i` the packet that brings the bytes to the number wanted, if
   there is one: the packets before it are accepted, in order. If the bytes then meet the number
   exactly, the buffer is completed with them, once; if they overshoot, the packet is stalled and
   nothing is ever completed. Either way the endpoint is idle and stalls the rest.
   */
  lemma {:induction false} ReceivesBuffer(got: seq<uint8>, want: nat, callback: Callback, packets: seq<seq<uint8>>)
    returns (i: nat)
    requires |got| <= want
    ensures i <= |packets| && Short(got, packets[..i], want)
    ensures i == |packets| ==>
      RxRun(Rx(got, want, callback), packets) == (Rx(got + Concat(packets), want, callback), i, [])
    ensures i < |packets| ==>
      var all := got + Concat(packets[..i + 1]);
      && |all| >= want
      && RxRun(Rx(got, want, callback), packets) == if |all| == want then (Idle, i + 1, [all]) else (Idle, i, [])
    decreases |packets|
  {
    hide RxRun, Rxouti;
    if packets == [] {
      i := 0;
      NoPackets(got, want, callback);
    } else if |got| + |packets[0]| < want {
      ThenReceives(got, want, callback, packets);
      var k := ReceivesBuffer(got + packets[0], want, callback, packets[1..]);
      i := k + 1;
      ConcatTake(packets, i);
      assert got + packets[0] + Concat(packets[1..]) == got + Concat(packets);
      if i < |packets| {
        ConcatTake(packets, i + 1);
        assert got + packets[0] + Concat(packets[1..][..k + 1]) == got + Concat(packets[..i + 1]);
      }
    } else {
      i := 0;
      ConcatTake(packets, 1);
      assert Concat(packets[..1]) == packets[0] + Concat([]) == packets[0];
      StopsHere(got, want, callback, packets);
    }
  }

  lemma NoPackets(got: seq<uint8>, want: nat, callback: Callback)
    ensures RxRun(Rx(got, want, callback), []) == (Rx(got + Concat([]), want, callback), 0, [])
  {
    assert got + Concat([]) == got;
  }

  lemma ThenReceives(got: seq<uint8>, want: nat, callback: Callback, packets: seq<seq<uint8>>)
    requires packets != [] && |got| + |packets[0]| < want
    ensures var (t, n, done) := RxRun(Rx(got + packets[0], want, callback), packets[1..]);
      RxRun(Rx(got, want, callback), packets) == (t, n + 1, done)
  {
    var done := RxRun(Rx(got + packets[0], want, callback), packets[1..]).2;
    assert RxRun(Rx(got, want, callback), packets).2 == [] + done == done;
  }

  lemma StopsHere(got: seq<uint8>, want: nat, callback: Callback, packets: seq<seq<uint8>>)
    requires packets != [] && |got| + |packets[0]| >= want
    ensures RxRun(Rx(got, want, callback), packets) ==
      if |got| + |packets[0]| == want then (Idle, 1, [got + packets[0]]) else (Idle, 0, [])
  {
    IdleStalls(packets[1..]);
    var done := Rxouti(Rx(got, want, callback), packets[0]).2;
    assert RxRun(Rx(got, want, callback), packets).2 == (if done.Some? then [done.value] else []) + []
        == if |got| + |packets[0]| == want then [got + packets[0]] else [];
  }
}
