/** The host side of the protocol, decode/net.c: message handling and the binding to a device. */
module Host {
  import opened Machine
  import opened Fifo
  import opened Packets
  import opened Osc

  const BUF_SZ := 1500
  /** `-EAGAIN`: nothing to return. */
  const AGAIN := -11
  /** Microseconds in a second: the clock is a `timeval`. */
  const SECOND := 1_000_000

  type HostBuf = s: seq<uint8> | |s| == BUF_SZ witness Zeros(BUF_SZ)

  datatype Addr = Addr(ip: Ip4, port: uint16)

  /** A datagram given to the socket. */
  datatype Sent = Sent(to: Addr, payload: seq<uint8>)

  /** `remote_addr`, `remote_timeout`, `remote_valid` and the static buffer. */
  datatype Remote = Remote(addr: Addr, timeout: int, valid: bool, buf: HostBuf)

  /** What a call returns, the bytes it stores for the caller, and what it sends. */
  datatype Result = Result(ret: int, data: seq<uint8>, sent: seq<Sent>)

  /** A 32-bit field in network order. */
  function Long(s: seq<uint8>, i: nat): uint32
    requires i + 4 <= |s|
  {
    var hi: nat, lo: nat := Word(s[i], s[i + 1]), Word(s[i + 2], s[i + 3]);
    hi * 0x1_0000 + lo
  }

  /** The field at `i` after `*len = ntohl(*len)` on a little-endian host. */
  function Reversed(s: HostBuf, i: nat): HostBuf
    requires i + 4 <= BUF_SZ
  {
    Splice(s, i, [s[i + 3], s[i + 2], s[i + 1], s[i]])
  }

  /** The conversion of an integer to a 32-bit int. */
  function Int32(x: int): int {
    (x + 0x8000_0000) % 0x1_0000_0000 - 0x8000_0000
  }

  /** C's division by 100. */
  function Hundredth(x: int): int {
    if x >= 0 then x / 100 else -(-x / 100)
  }

  /** The part of the granted time after which the host renews. */
  function LeaseSeconds(ret: int): int {
    Hundredth(Int32(ret * 75))
  }

  /** The buffer holds an address and its terminator. */
  predicate Starts(b: HostBuf, msg: seq<uint8>)
    requires |msg| < BUF_SZ
  {
    b[..|msg| + 1] == msg + [0]
  }

  /** The static buffer after an INIT has been prepared in it. */
  function InitBuf(): HostBuf {
    Encode(Init) + Zeros(BUF_SZ - 16)
  }

  /** The buffer, the returned length and the bytes copied out. */
  function CheckIo(b: HostBuf, sizeIn: nat, sizeOut: nat): (HostBuf, nat, seq<uint8>)
    requires sizeIn <= BUF_SZ
  {
    if sizeIn < 16 || b[8..12] != FMT_IO then (b, 0, [])
    else
      var len := Long(b, 12);
      if sizeOut < len || sizeIn < 16 + len then (Reversed(b, 12), 0, [])
      else (Reversed(b, 12), len, b[16..16 + len])
  }

  function CheckBound(b: HostBuf, size: nat): (HostBuf, int) {
    if size < 24 || b[12..20] != FMT_BOUND then (b, 0)
    else (Reversed(b, 20), Int32(Long(b, 20)))
  }

  /** `recvfrom` cuts a datagram at the size of the buffer. */
  function Cut(bytes: seq<uint8>): (r: seq<uint8>)
    ensures |r| <= BUF_SZ
  {
    if |bytes| <= BUF_SZ then bytes else bytes[..BUF_SZ]
  }

  /** `get_frame` on a datagram received from `from`, at time `now`, for a caller's buffer of `size` bytes. */
  function Receive(h: Remote, from: Addr, bytes: seq<uint8>, now: int, size: nat): (Remote, Result) {
    var n := |Cut(bytes)|;
    var b: HostBuf := Splice(h.buf, 0, Cut(bytes));
    var answer := (h.(buf := InitBuf()), Result(AGAIN, [], [Sent(from, Encode(Init))]));
    if Starts(b, MSG_DISCOVER) then answer
    else if Starts(b, MSG_IO) then
      if !h.valid then answer
      else if from == h.addr then
        var (c, ret, data) := CheckIo(b, n, size);
        (h.(buf := c), Result(ret, data, []))
      else (h.(buf := b), Result(AGAIN, [], []))
    else if Starts(b, MSG_BOUND) then
      var (c, ret) := CheckBound(b, n);
      (Remote(from, now + LeaseSeconds(ret) * SECOND, true, c), Result(AGAIN, [], []))
    else (h.(buf := b), Result(AGAIN, [], []))
  }

  /** The first part of `net_poll`: a binding whose time is over is renewed and given up. */
  function Renew(h: Remote, now: int): (Remote, seq<Sent>) {
    if h.valid && h.timeout <= now then (h.(valid := false, buf := InitBuf()), [Sent(h.addr, Encode(Init))])
    else (h, [])
  }

  /** A datagram that arrives while `net_poll` waits, and the time of its arrival. */
  datatype Arrival = Arrival(from: Addr, bytes: seq<uint8>, at: int)

  class NetHost {
    var addr: Addr
    var timeout: int
    var valid: bool
    const buf: array<uint8>

    ghost predicate Valid() {
      buf.Length == BUF_SZ
    }

    ghost function State(): Remote
      requires Valid()
      reads this, buf
    {
      Remote(addr, timeout, valid, buf[..])
    }

    constructor ()
      ensures Valid() && !valid && fresh(buf)
    {
      addr, timeout, valid := Addr(Zeros(4), 0), 0, false;
      buf := new uint8[BUF_SZ];
    }

    method NetSendInit(to: Addr) returns (sent: Sent)
      requires Valid()
      modifies buf
      ensures Valid() && State() == old(State()).(buf := InitBuf())
      ensures sent == Sent(to, Encode(Init))
    {
      hide Splice, Zeros;
      ghost var s := buf[..];
      MemCpy(buf, 0, Zeros(BUF_SZ));
      MemCpy(buf, 0, MSG_INIT + [0]);
      var len := |MSG_INIT|;
      len := len + (4 - len % 4);
      Poke(buf, len, COMMA);
      len := len + 4;
      InitPrepared(s);
      assert buf[..len] == buf[..][..len] == Encode(Init);
      sent := Sent(to, buf[..len]);
    }

    method CheckIoMessage(sizeIn: nat, sizeOut: nat) returns (ret: nat, out: seq<uint8>)
      requires Valid() && sizeIn <= BUF_SZ
      modifies buf
      ensures Valid()
      ensures var (c, n, data) := CheckIo(old(State()).buf, sizeIn, sizeOut);
        State() == old(State()).(buf := c) && ret == n && out == data
    {
      hide Splice, Long;
      var hlen := |MSG_IO|;
      hlen := hlen + (4 - hlen % 4);
      if sizeIn < hlen + 4 + 4 {
        return 0, [];
      }
      assert buf[hlen..hlen + 4] == buf[..][8..12];
      if buf[hlen..hlen + 4] != FMT_IO {
        return 0, [];
      }
      ghost var b := buf[..];
      var len := Long(buf[..], hlen + 4);
      MemCpy(buf, hlen + 4, [buf[hlen + 7], buf[hlen + 6], buf[hlen + 5], buf[hlen + 4]]);
      if sizeOut < len || sizeIn < hlen + 4 + 4 + len {
        return 0, [];
      }
      assert buf[hlen + 8..hlen + 8 + len] == b[16..16 + len];
      ret, out := len, buf[hlen + 8..hlen + 8 + len];
    }

    method CheckBoundMessage(size: nat) returns (ret: int)
      requires Valid() && size <= BUF_SZ
      modifies buf
      ensures Valid()
      ensures var (c, n) := CheckBound(old(State()).buf, size);
        State() == old(State()).(buf := c) && ret == n
    {
      hide Splice, Long;
      var hlen := |MSG_BOUND|;
      hlen := hlen + (4 - hlen % 4);
      if size < hlen + 8 + 4 {
        return 0;
      }
      assert buf[hlen..hlen + 8] == buf[..][12..20];
      if buf[hlen..hlen + 8] != FMT_BOUND {
        return 0;
      }
      var len := Long(buf[..], hlen + 8);
      MemCpy(buf, hlen + 8, [buf[hlen + 11], buf[hlen + 10], buf[hlen + 9], buf[hlen + 8]]);
      ret := Int32(len);
    }

    method GetFrame(from: Addr, bytes: seq<uint8>, now: int, size: nat) returns (r: Result)
      requires Valid()
      modifies this, buf
      ensures Valid()
      ensures var (h, out) := Receive(old(State()), from, bytes, now, size); State() == h && r == out
    {
      hide Splice, CheckIo, CheckBound, InitBuf, Encode;
      var cut := Cut(bytes);
      MemCpy(buf, 0, cut);
      assert forall n :: 0 <= n < BUF_SZ ==> buf[..n] == buf[..][..n];
      r := Result(AGAIN, [], []);
      if buf[..|MSG_DISCOVER| + 1] == MSG_DISCOVER + [0] {
        var sent := NetSendInit(from);
        r := Result(AGAIN, [], [sent]);
      } else if buf[..|MSG_IO| + 1] == MSG_IO + [0] {
        if !valid {
          var sent := NetSendInit(from);
          r := Result(AGAIN, [], [sent]);
        } else if from == addr {
          var ret, data := CheckIoMessage(|cut|, size);
          r := Result(ret, data, []);
        }
      } else if buf[..|MSG_BOUND| + 1] == MSG_BOUND + [0] {
        var ret := CheckBoundMessage(|cut|);
        addr := from;
        valid := true;
        timeout := now + LeaseSeconds(ret) * SECOND;
      }
    }

    /** `net_poll`: it returns without a datagram only when `select` times out, which it can only do
        while there is a binding with time left. */
    method NetPoll(now: int, arrival: Option<Arrival>, size: nat) returns (r: Result)
      requires Valid()
      requires arrival.None? ==> valid && timeout > now
      modifies this, buf
      ensures Valid()
      ensures var (h, renewal) := Renew(old(State()), now);
        match arrival
        case None => State() == h && r == Result(AGAIN, [], renewal)
        case Some(a) =>
          var (g, out) := Receive(h, a.from, a.bytes, a.at, size);
          State() == g && r == out.(sent := renewal + out.sent)
    {
      hide Receive, InitBuf, Encode;
      var renewal: seq<Sent> := [];
      if valid {
        if !(timeout - now > 0) {
          var sent := NetSendInit(addr);
          renewal := [sent];
          valid := false;
        } else if arrival.None? {
          return Result(AGAIN, [], []);
        }
      }
      r := GetFrame(arrival.value.from, arrival.value.bytes, arrival.value.at, size);
      r := r.(sent := renewal + r.sent);
    }
  }

  lemma InitPrepared(s: HostBuf)
    ensures Splice(Splice(s, 0, Zeros(BUF_SZ)), 0, MSG_INIT + [0])[12 := COMMA] == InitBuf()
    ensures InitBuf()[..16] == Encode(Init)
  {
    hide Splice;
    var t := Splice(Splice(s, 0, Zeros(BUF_SZ)), 0, MSG_INIT + [0])[12 := COMMA];
    assert forall k :: 0 <= k < BUF_SZ ==> t[k] == InitBuf()[k];
  }

  // ----- What the host makes of the device's messages -----

  lemma Received(h: Remote, payload: seq<uint8>)
    requires |payload| <= BUF_SZ
    ensures Cut(payload) == payload
    ensures var b: HostBuf := Splice(h.buf, 0, payload);
      forall i, j {:trigger b[i..j]} :: 0 <= i <= j <= |payload| ==> b[i..j] == payload[i..j]
  {
    hide Splice;
  }

  /** The addresses of the three messages are told apart by their first bytes. */
  lemma AddressesDiffer(b: HostBuf, m: Message)
    requires !m.Init? && b[..11] == Encode(m)[..11] && (m.Discover? ==> b[..14] == Encode(m)[..14])
    ensures Starts(b, MSG_DISCOVER) <==> m.Discover?
    ensures Starts(b, MSG_IO) <==> m.Io?
    ensures Starts(b, MSG_BOUND) <==> m.Bound?
  {
    hide Word;
    assert b[..14][5] == b[5] == b[..11][5] && b[..14][6] == b[6];
    assert b[..8] == b[..11][..8];
    match m
    case Discover => assert Encode(m)[..14] == MSG_DISCOVER + [0];
    case Io(f) =>
      assert Encode(m)[..8] == MSG_IO + [0] && Encode(m)[..11][..8] == Encode(m)[..8];
      assert Encode(m)[..11][5] == 105;
    case Bound(ip, mac) =>
      assert Encode(m)[..11] == MSG_BOUND + [0];
      assert Encode(m)[..11][5] == 98;
    case Init => 
  }

  lemma IoParts(f: Frame)
    ensures var e := Encode(Io(f)); e[8..12] == FMT_IO && Long(e, 12) == 16 && e[16..32] == f
  {}

  lemma BoundParts(ip: Ip4, mac: Mac)
    ensures var e := Encode(Bound(ip, mac)); e[12..20] == FMT_BOUND && Long(e, 20) == 10
  {}

  lemma OnDiscover(h: Remote, from: Addr, now: int, size: nat)
    ensures Receive(h, from, Encode(Discover), now, size)
         == (h.(buf := InitBuf()), Result(AGAIN, [], [Sent(from, Encode(Init))]))
  {
    hide Splice, Encode, InitBuf, Starts;
    var b: HostBuf := Splice(h.buf, 0, Encode(Discover));
    Received(h, Encode(Discover));
    assert b[0..14] == Encode(Discover)[0..14] && b[0..11] == Encode(Discover)[0..11];
    AddressesDiffer(b, Discover);
  }

  /** An IO message is returned byte for byte if it comes from the bound device, and only then; without
      a binding it is dropped and an INIT sent. */
  lemma OnIo(h: Remote, from: Addr, f: Frame, now: int)
    ensures var (g, r) := Receive(h, from, Encode(Io(f)), now, PAYLOAD_SIZE);
      && g.addr == h.addr && g.timeout == h.timeout && g.valid == h.valid
      && if !h.valid then r == Result(AGAIN, [], [Sent(from, Encode(Init))])
         else if from == h.addr then r == Result(PAYLOAD_SIZE, f, [])
         else r == Result(AGAIN, [], [])
  {
    hide Splice, Encode, InitBuf, Starts, Long;
    var e := Encode(Io(f));
    var b: HostBuf := Splice(h.buf, 0, e);
    Received(h, e);
    assert b[0..11] == e[0..11];
    AddressesDiffer(b, Io(f));
    IoParts(f);
    LongPart(b, e, 12);
    assert b[8..12] == e[8..12] && b[16..32] == e[16..32];
  }

  lemma LongPart(b: seq<uint8>, e: seq<uint8>, i: nat)
    requires i + 4 <= |e| <= |b| && b[i..i + 4] == e[i..i + 4]
    ensures Long(b, i) == Long(e, i)
  {
    hide Word;
    var x, y := b[i..i + 4], e[i..i + 4];
    assert x[0] == y[0] && x[1] == y[1] && x[2] == y[2] && x[3] == y[3];
  }

  /** A BOUND, whoever sends it, binds the host to its sender for seven of the ten seconds. */
  lemma OnBound(h: Remote, from: Addr, ip: Ip4, mac: Mac, now: int, size: nat)
    ensures var (g, r) := Receive(h, from, Encode(Bound(ip, mac)), now, size);
      && g.addr == from && g.valid && g.timeout == now + 7 * SECOND && r == Result(AGAIN, [], [])
  {
    hide Splice, Encode, InitBuf, Starts, Long;
    var e := Encode(Bound(ip, mac));
    var b: HostBuf := Splice(h.buf, 0, e);
    Received(h, e);
    assert b[0..11] == e[0..11];
    AddressesDiffer(b, Bound(ip, mac));
    BoundParts(ip, mac);
    LongPart(b, e, 20);
    assert b[12..20] == e[12..20];
  }

  // ----- Every datagram that begins like an IO or a BOUND -----

  /** The datagram begins with an address and its terminator. */
  predicate Begins(bytes: seq<uint8>, msg: seq<uint8>) {
    |msg| < |bytes| && bytes[..|msg| + 1] == msg + [0]
  }

  /** The number in a message's four-byte field at `i`. */
  function Number(bytes: seq<uint8>, i: nat): (r: nat)
    requires i + 4 <= |bytes|
  {
    var a: nat, b: nat, c: nat, d: nat := bytes[i], bytes[i + 1], bytes[i + 2], bytes[i + 3];
    a * 0x100_0000 + b * 0x1_0000 + c * 0x100 + d
  }

  lemma LongIsNumber(bytes: seq<uint8>, i: nat)
    requires i + 4 <= |bytes|
    ensures Long(bytes, i) == Number(bytes, i)
  {}

  /** The buffer holds the datagram, with the field at `i` reversed. */
  predicate HoldsReversed(b: HostBuf, bytes: seq<uint8>, i: nat)
    requires i + 4 <= |bytes| <= BUF_SZ
  {
    b[..|bytes|] == bytes[..i] + [bytes[i + 3], bytes[i + 2], bytes[i + 1], bytes[i]] + bytes[i + 4..]
  }

  lemma ReversedHolds(b: HostBuf, bytes: seq<uint8>, i: nat)
    requires i + 4 <= |bytes| <= BUF_SZ && b[..|bytes|] == bytes
    ensures HoldsReversed(Reversed(b, i), bytes, i)
  {
    hide Splice;
    var r, n := Reversed(b, i), |bytes|;
    var t := bytes[..i] + [bytes[i + 3], bytes[i + 2], bytes[i + 1], bytes[i]] + bytes[i + 4..];
    assert forall k :: 0 <= k < n ==> b[k] == b[..n][k] == bytes[k];
    assert forall k :: 0 <= k < n ==> r[..n][k] == t[k];
  }

  /** A datagram from the bound device that begins like an IO message is returned exactly if it is long enough
      for its format, has the format, and its blob lies within it and fits the caller's buffer; then its blob
      is returned. */
  lemma IoExactly(h: Remote, bytes: seq<uint8>, now: int, size: nat)
    requires h.valid && |bytes| <= BUF_SZ && Begins(bytes, MSG_IO)
    ensures var (g, r) := Receive(h, h.addr, bytes, now, size);
      && g == h.(buf := g.buf) && r.sent == []
      && if |bytes| >= 16 && bytes[8..12] == [44, 98, 0, 0] then
           var len := Number(bytes, 12);
           && HoldsReversed(g.buf, bytes, 12)
           && (if len <= size && 16 + len <= |bytes| then r.ret == len && r.data == bytes[16..16 + len]
               else r.ret == 0 && r.data == [])
         else r.ret == 0 && r.data == [] && g.buf[..|bytes|] == bytes
  {
    hide Splice, Starts, Long, Reversed, HoldsReversed, InitBuf, Encode;
    var b: HostBuf := Splice(h.buf, 0, bytes);
    Received(h, bytes);
    assert b[0..8] == bytes[0..8] && b[0..|bytes|] == bytes[0..|bytes|];
    BeginsLike(b, MSG_IO);
    if |bytes| >= 16 {
      assert b[8..12] == bytes[8..12] && b[12..16] == bytes[12..16];
      LongPart(b, bytes, 12);
      LongIsNumber(bytes, 12);
      ReversedHolds(b, bytes, 12);
      if Long(b, 12) + 16 <= |bytes| {
        assert b[16..16 + Long(b, 12)] == bytes[16..16 + Long(b, 12)];
      }
    }
  }

  /** A datagram that begins like a BOUND binds the host to its sender, whatever follows: for the time that
      the code makes of the number granted if it has the format, and else for no time at all. */
  lemma BoundExactly(h: Remote, from: Addr, bytes: seq<uint8>, now: int, size: nat)
    requires |bytes| <= BUF_SZ && Begins(bytes, MSG_BOUND)
    ensures var (g, r) := Receive(h, from, bytes, now, size);
      && g.addr == from && g.valid && r == Result(AGAIN, [], [])
      && if |bytes| >= 24 && bytes[12..20] == [44, 105, 105, 98, 0, 0, 0, 0] then
           && HoldsReversed(g.buf, bytes, 20)
           && g.timeout == now + LeaseSeconds(Int32(Number(bytes, 20))) * SECOND
         else g.timeout == now && g.buf[..|bytes|] == bytes
  {
    hide Splice, Starts, Long, Reversed, HoldsReversed, InitBuf, Encode, Int32, LeaseSeconds;
    var b: HostBuf := Splice(h.buf, 0, bytes);
    Received(h, bytes);
    assert b[0..11] == bytes[0..11] && b[0..|bytes|] == bytes[0..|bytes|];
    BeginsLike(b, MSG_BOUND);
    NoLease();
    if |bytes| >= 24 {
      assert b[12..20] == bytes[12..20] && b[20..24] == bytes[20..24];
      LongPart(b, bytes, 20);
      LongIsNumber(bytes, 20);
      ReversedHolds(b, bytes, 20);
    }
  }

  /** Which of the other datagrams are answered by an INIT, and which only leave their bytes in the buffer. */
  lemma OthersExactly(h: Remote, from: Addr, bytes: seq<uint8>, now: int, size: nat)
    requires 14 <= |bytes| <= BUF_SZ && !Begins(bytes, MSG_BOUND)
    requires Begins(bytes, MSG_IO) ==> !h.valid || from != h.addr
    ensures var (g, r) := Receive(h, from, bytes, now, size);
      && r.ret == AGAIN && r.data == []
      && if Begins(bytes, MSG_DISCOVER) || (Begins(bytes, MSG_IO) && !h.valid) then
           r.sent == [Sent(from, Encode(Init))] && g == h.(buf := InitBuf())
         else r.sent == [] && g == h.(buf := g.buf) && g.buf == bytes + h.buf[|bytes|..]
  {
    hide Splice, CheckIo, CheckBound, InitBuf, Encode;
    var b: HostBuf := Splice(h.buf, 0, bytes);
    Received(h, bytes);
    assert b[0..14] == bytes[0..14] && b[0..11] == bytes[0..11] && b[0..8] == bytes[0..8];
    assert b == bytes + h.buf[|bytes|..];
  }

  lemma NoLease()
    ensures LeaseSeconds(0) == 0
  {}

  lemma BeginsLike(b: HostBuf, msg: seq<uint8>)
    requires msg in [MSG_IO, MSG_BOUND] && b[..|msg| + 1] == msg + [0]
    ensures Starts(b, msg) && !Starts(b, MSG_DISCOVER)
    ensures msg == MSG_BOUND ==> !Starts(b, MSG_IO)
  {
    assert b[..|msg| + 1][5] == b[5];
    assert b[..14][5] == b[5] && b[..8][5] == b[5];
  }

  /** The host holds a binding for three quarters of the seconds granted, rounded down, exactly if their
      product by 75 is an `int` and not negative. */
  lemma ThreeQuarters(granted: int)
    requires -0x8000_0000 <= granted < 0x8000_0000
    ensures (0 <= 4 * LeaseSeconds(granted) <= 3 * granted < 4 * LeaseSeconds(granted) + 4)
      <==> 0 <= granted && 75 * granted < 0x8000_0000
  {}

  // ----- Without a binding -----

  /** A host without a binding returns nothing, whatever datagram it gets from whomever. */
  lemma UnboundReturnsNothing(h: Remote, from: Addr, bytes: seq<uint8>, now: int, size: nat)
    requires !h.valid
    ensures Receive(h, from, bytes, now, size).1.ret == AGAIN && Receive(h, from, bytes, now, size).1.data == []
  {
    hide Splice, Starts, CheckIo, CheckBound, InitBuf, Encode;
  }

  /** A call that finds the binding's time over gives it up and asks the device to renew it; whatever comes
      next, the call returns nothing. Otherwise the call changes nothing before it waits. */
  lemma ExpiredCall(h: Remote, now: int, from: Addr, bytes: seq<uint8>, at: int, size: nat)
    ensures var (g, sent) := Renew(h, now);
      && (g.valid <==> h.valid && now < h.timeout)
      && (if h.valid && h.timeout <= now then
            && g == Remote(h.addr, h.timeout, false, InitBuf()) && sent == [Sent(h.addr, Encode(Init))]
            && Receive(g, from, bytes, at, size).1.ret == AGAIN
          else g == h && sent == [])
  {
    hide Receive, InitBuf, Encode;
    var g := Renew(h, now).0;
    if !g.valid {
      UnboundReturnsNothing(g, from, bytes, at, size);
    }
  }
}
