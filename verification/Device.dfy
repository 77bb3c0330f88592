/** The device side of the protocol, firmware/net/base.c: packets built in place in one buffer. */
module Device {
  import opened Machine
  import opened Checksum
  import opened Fifo
  import opened Packets
  import opened Osc

  const NETBUF_SZ := 256
  const DATA_OFF := ETH_HLEN + IP_HLEN + UDP_HLEN
  const DATA_SZ := NETBUF_SZ - DATA_OFF
  const PORT: uint16 := 9999
  /** Timer ticks per second, at most. */
  const HZ := 200

  const MY_MAC: Mac := [0x00, 0x21, 0xf3, 0x00, 0x88, 0x51]
  const MY_IP: Ip4 := [172, 16, 0, 33]

  // ----- Messages stored in the buffer -----

  /** The buffer once a message and zeros have been stored behind the headers. */
  function WithData(s: seq<uint8>, m: Message): (r: seq<uint8>)
    requires |s| == NETBUF_SZ
    ensures |r| == |s|
  {
    Splice(s, DATA_OFF, Encode(m) + Zeros(DATA_SZ - |Encode(m)|))
  }

  /** `memset` from the data area on and `snprintf` of an address; returns the padded length. */
  method StoreAddress(buf: array<uint8>, off: nat, address: seq<uint8>) returns (size: nat)
    requires buf.Length == NETBUF_SZ && off <= 100 && |address| < 100
    modifies buf
    ensures buf[..] == Splice(old(buf[..]), off, address + Zeros(NETBUF_SZ - off - |address|))
    ensures size == |Padded(address)|
  {
    hide Splice, Zeros;
    ghost var s := buf[..];
    MemCpy(buf, off, Zeros(NETBUF_SZ - off));
    MemCpy(buf, off, address + [0]);
    StoredString(s, off, address);
    size := |address|;
    size := size + (4 - size % 4);
  }

  lemma StoredString(s: seq<uint8>, off: nat, address: seq<uint8>)
    requires |s| == NETBUF_SZ && off <= 100 && |address| < 100
    ensures Splice(Splice(s, off, Zeros(NETBUF_SZ - off)), off, address + [0])
         == Splice(s, off, address + Zeros(NETBUF_SZ - off - |address|))
  {
    hide Splice;
    SpliceInside(s, off, Zeros(NETBUF_SZ - off), 0, address + [0]);
    assert Splice(Zeros(NETBUF_SZ - off), 0, address + [0]) == address + Zeros(NETBUF_SZ - off - |address|);
  }

  method StoreDiscover(buf: array<uint8>) returns (size: nat)
    requires buf.Length == NETBUF_SZ
    modifies buf
    ensures buf[..] == WithData(old(buf[..]), Discover) && size == |Encode(Discover)|
  {
    hide Splice, Zeros, WithData, Encode;
    ghost var s := buf[..];
    size := StoreAddress(buf, DATA_OFF, MSG_DISCOVER);
    Poke(buf, DATA_OFF + size, COMMA);
    StoredDiscover(s);
    size := size + 4;
  }

  lemma StoredDiscover(s: seq<uint8>)
    requires |s| == NETBUF_SZ
    ensures Splice(s, DATA_OFF, MSG_DISCOVER + Zeros(DATA_SZ - 13))[DATA_OFF + 16 := COMMA] == WithData(s, Discover)
  {
    hide Splice;
    var e := Encode(Discover) + Zeros(DATA_SZ - 20);
    assert (MSG_DISCOVER + Zeros(DATA_SZ - 13))[16 := COMMA] == e;
    assert Splice(s, DATA_OFF, MSG_DISCOVER + Zeros(DATA_SZ - 13))[DATA_OFF + 16 := COMMA] == Splice(s, DATA_OFF, e);
  }

  /** An IO message, with zeros after it, in the data area at `off`. */
  method StoreIo(buf: array<uint8>, off: nat, frame: Frame) returns (size: nat)
    requires buf.Length == NETBUF_SZ && off <= 100
    modifies buf
    ensures buf[..] == Splice(old(buf[..]), off, Encode(Io(frame)) + Zeros(NETBUF_SZ - off - 32))
    ensures size == |Encode(Io(frame))|
  {
    hide Splice, Zeros, Encode;
    ghost var s := buf[..];
    size := StoreAddress(buf, off, MSG_IO);
    var frm := off + size;
    Poke(buf, frm, COMMA);
    Poke(buf, frm + 1, 98);
    MemCpy(buf, frm + 4, [0, 0, 0, PAYLOAD_SIZE]);
    MemCpy(buf, frm + 8, frame);
    StoredIo(s, off, frame);
    size := size + 24;
  }

  /** The stores of an IO message in a data area of `n` bytes. */
  lemma IoLayout(n: nat, frame: Frame)
    requires n >= 32
    ensures var d := (MSG_IO + Zeros(n - 7))[8 := COMMA][9 := 98];
      Splice(Splice(d, 12, [0, 0, 0, PAYLOAD_SIZE]), 16, frame) == Encode(Io(frame)) + Zeros(n - 32)
  {
    hide Splice;
    var d := (MSG_IO + Zeros(n - 7))[8 := COMMA][9 := 98];
    var t := Splice(Splice(d, 12, [0, 0, 0, PAYLOAD_SIZE]), 16, frame);
    assert t[..8] == Padded(MSG_IO);
    assert t[8..12] == FMT_IO;
    assert t[12..16] == [0, 0, 0, PAYLOAD_SIZE] && t[16..32] == frame;
    assert t[32..] == Zeros(n - 32);
    assert t == t[..8] + t[8..12] + t[12..16] + t[16..32] + t[32..];
  }

  lemma StoredIo(s: seq<uint8>, off: nat, frame: Frame)
    requires |s| == NETBUF_SZ && off <= 100
    ensures var z := Splice(s, off, MSG_IO + Zeros(NETBUF_SZ - off - 7))[off + 8 := COMMA][off + 9 := 98];
            Splice(Splice(z, off + 12, [0, 0, 0, PAYLOAD_SIZE]), off + 16, frame)
              == Splice(s, off, Encode(Io(frame)) + Zeros(NETBUF_SZ - off - 32))
  {
    hide Splice, Zeros, Encode;
    var d := MSG_IO + Zeros(NETBUF_SZ - off - 7);
    var e := d[8 := COMMA][9 := 98];
    SpliceUpdate(s, off, d, 8, COMMA);
    SpliceUpdate(s, off, d[8 := COMMA], 9, 98);
    SpliceInside(s, off, e, 12, [0, 0, 0, PAYLOAD_SIZE]);
    SpliceInside(s, off, Splice(e, 12, [0, 0, 0, PAYLOAD_SIZE]), 16, frame);
    IoLayout(NETBUF_SZ - off, frame);
  }

  lemma IoIsData(s: seq<uint8>, frame: Frame)
    requires |s| == NETBUF_SZ
    ensures WithData(s, Io(frame)) == Splice(s, DATA_OFF, Encode(Io(frame)) + Zeros(NETBUF_SZ - DATA_OFF - 32))
  {}

  method StoreBound(buf: array<uint8>, ip: Ip4, mac: Mac) returns (size: nat)
    requires buf.Length == NETBUF_SZ
    modifies buf
    ensures buf[..] == WithData(old(buf[..]), Bound(ip, mac)) && size == |Encode(Bound(ip, mac))|
  {
    hide Splice, Zeros, WithData, Encode;
    ghost var s := buf[..];
    size := StoreAddress(buf, DATA_OFF, MSG_BOUND);
    var frm := DATA_OFF + size;
    MemCpy(buf, frm, FMT_BOUND[..4]);
    MemCpy(buf, frm + 8, [0, 0, 0, NET_TIMEOUT]);
    MemCpy(buf, frm + 12, ip);
    MemCpy(buf, frm + 16, [0, 0, 0, 6]);
    MemCpy(buf, frm + 20, mac);
    StoredBound(s, ip, mac);
    size := size + 28;
  }

  lemma StoredBound(s: seq<uint8>, ip: Ip4, mac: Mac)
    requires |s| == NETBUF_SZ
    ensures var z := Splice(Splice(s, DATA_OFF, MSG_BOUND + Zeros(DATA_SZ - 10)), DATA_OFF + 12, FMT_BOUND[..4]);
            var y := Splice(Splice(z, DATA_OFF + 20, [0, 0, 0, NET_TIMEOUT]), DATA_OFF + 24, ip);
            Splice(Splice(y, DATA_OFF + 28, [0, 0, 0, 6]), DATA_OFF + 32, mac) == WithData(s, Bound(ip, mac))
  {
    hide Splice;
    var z := Splice(Splice(s, DATA_OFF, MSG_BOUND + Zeros(DATA_SZ - 10)), DATA_OFF + 12, FMT_BOUND[..4]);
    var y := Splice(Splice(z, DATA_OFF + 20, [0, 0, 0, NET_TIMEOUT]), DATA_OFF + 24, ip);
    var t := Splice(Splice(y, DATA_OFF + 28, [0, 0, 0, 6]), DATA_OFF + 32, mac);
    assert t[DATA_OFF..NETBUF_SZ] == Encode(Bound(ip, mac)) + Zeros(DATA_SZ - 40);
    SpliceWindow(s, t, DATA_OFF, DATA_SZ);
  }

  // ----- Datagrams -----

  /** The UDP datagram carrying a message; the buffer `s` supplies the bytes the builders leave alone. */
  function Datagram(s: seq<uint8>, mac: Mac, ip: Ip4, m: Message): (r: seq<uint8>)
    requires |s| == NETBUF_SZ
    ensures |r| == DATA_OFF + |Encode(m)|
  {
    var size := |Encode(m)|;
    EthernetHeader(mac, MY_MAC, ETH_P_IP)
    + IpHeader(s[IP + 1], Field(s, IP + 4), IP_HLEN + UDP_HLEN + size, IPPROTO_UDP, MY_IP, ip)
    + UdpHeader(PORT, PORT, size) + Encode(m)
  }

  /** The buffer after a datagram has been built in it. */
  function Filled(datagram: seq<uint8>): (r: seq<uint8>)
    requires |datagram| <= NETBUF_SZ
    ensures |r| == NETBUF_SZ
  {
    datagram + Zeros(NETBUF_SZ - |datagram|)
  }

  /** The three headers in front of a stored message; a missing address stands for broadcast. */
  method BuildHeaders(buf: array<uint8>, mac: Option<Mac>, ip: Option<Ip4>, size: uint16,
                      ghost s: seq<uint8>, ghost m: Message)
    requires buf.Length == NETBUF_SZ && |s| == NETBUF_SZ
    requires buf[..] == WithData(s, m) && size == |Encode(m)|
    modifies buf
    ensures buf[..] == Filled(Datagram(s, if mac.Some? then mac.value else Ones(6),
                                       if ip.Some? then ip.value else Ones(4), m))
  {
    hide Splice, Zeros, Encode, EthernetHeader, IpHeader, UdpHeader, Datagram, Filled;
    ghost var d := buf[..];
    WithDataKeeps(s, m);
    BuildEthernet(buf, 0, mac, MY_MAC, ETH_P_IP);
    assert buf[..][IP + 1] == d[IP + 1] && Field(buf[..], IP + 4) == Field(d, IP + 4);
    BuildIp(buf, IP, ip, MY_IP, IPPROTO_UDP, UDP_HLEN + size);
    BuildUdp(buf, IP + IP_HLEN, PORT, PORT, size);
    HeadersInPlace(s, d, if mac.Some? then mac.value else Ones(6), if ip.Some? then ip.value else Ones(4), m);
  }

  lemma WithDataKeeps(s: seq<uint8>, m: Message)
    requires |s| == NETBUF_SZ
    ensures WithData(s, m)[..DATA_OFF] == s[..DATA_OFF]
    ensures WithData(s, m)[DATA_OFF..] == Encode(m) + Zeros(DATA_SZ - |Encode(m)|)
    ensures forall i :: 0 <= i < DATA_OFF ==> WithData(s, m)[i] == s[i]
  {}

  lemma HeadersInPlace(s: seq<uint8>, d: seq<uint8>, mac: Mac, ip: Ip4, m: Message)
    requires |s| == NETBUF_SZ && d == WithData(s, m)
    ensures var size := |Encode(m)|;
      var eth := EthernetHeader(mac, MY_MAC, ETH_P_IP);
      var hdr := IpHeader(s[IP + 1], Field(s, IP + 4), IP_HLEN + UDP_HLEN + size, IPPROTO_UDP, MY_IP, ip);
      Splice(Splice(Splice(d, 0, eth), IP, hdr), IP + IP_HLEN, UdpHeader(PORT, PORT, size))
        == Filled(Datagram(s, mac, ip, m))
  {
    hide Zeros, Encode, EthernetHeader, IpHeader, UdpHeader, WithData, Splice, Filled;
    var size := |Encode(m)|;
    var eth := EthernetHeader(mac, MY_MAC, ETH_P_IP);
    var hdr := IpHeader(s[IP + 1], Field(s, IP + 4), IP_HLEN + UDP_HLEN + size, IPPROTO_UDP, MY_IP, ip);
    var udp := UdpHeader(PORT, PORT, size);
    WithDataKeeps(s, m);
    SpliceAdjacent(d, 0, eth, hdr);
    SpliceAdjacent(d, 0, eth + hdr, udp);
    SpliceAtFront(d, eth + hdr + udp);
    FilledParts(eth + hdr + udp, Encode(m));
  }

  lemma SpliceAtFront(s: seq<uint8>, a: seq<uint8>)
    requires |a| <= |s|
    ensures Splice(s, 0, a) == a + s[|a|..]
  {}

  lemma FilledParts(a: seq<uint8>, b: seq<uint8>)
    requires |a| == DATA_OFF && |b| <= DATA_SZ
    ensures Filled(a + b) == a + (b + Zeros(DATA_SZ - |b|))
  {}

  // ----- The protocol state -----

  type NetBuf = s: seq<uint8> | |s| == NETBUF_SZ witness Zeros(NETBUF_SZ)

  datatype Dev = Dev(bound: bool, boundtime: uint16, lastshot: uint16, remoteIp: Ip4, remoteMac: Mac, buf: NetBuf)

  /** A packet handed to the network chip, and the message it carries if it is one of the protocol. */
  datatype Output = Output(message: Option<Message>, packet: seq<uint8>)

  /** `jiffies - t` in 16 bits. */
  function Since(jiffies: uint16, t: uint16): uint16 {
    (jiffies - t) % 0x1_0000
  }

  predicate StaysBound(d: Dev, button: bool, jiffies: uint16) {
    d.bound && !button && Since(jiffies, d.boundtime) <= NET_TIMEOUT * HZ
  }

  /** One call of `process_periodic_udp`: the state, the receive ring and the packet sent. */
  function Periodic(d: Dev, rx: seq<Frame>, button: bool, jiffies: uint16): (Dev, seq<Frame>, Option<Output>) {
    var now := d.(bound := StaysBound(d, button, jiffies));
    if !now.bound then
      if Since(jiffies, d.lastshot) < HZ then (now, rx, None)
      else
        var packet := Datagram(d.buf, Ones(6), Ones(4), Discover);
        (now.(buf := Filled(packet), lastshot := jiffies), rx, Some(Output(Some(Discover), packet)))
    else if rx == [] then (now, rx, None)
    else
      var packet := Datagram(d.buf, d.remoteMac, d.remoteIp, Io(rx[0]));
      (now.(buf := Filled(packet), lastshot := jiffies), rx[1..], Some(Output(Some(Io(rx[0])), packet)))
  }

  /** What a poll sends, and what it takes off the ring: an IO with the oldest frame, which leaves the ring,
      exactly if the binding is alive and a frame waits; a DISCOVER, exactly without a live binding and a
      second after the last packet; nothing otherwise. The buffer is left holding the packet and zeros. */
  lemma PollSends(d: Dev, rx: seq<Frame>, button: bool, jiffies: uint16)
    ensures var (e, rest, out) := Periodic(d, rx, button, jiffies);
      var alive := d.bound && !button && (jiffies - d.boundtime) % 0x1_0000 <= 2000;
      && e.bound == alive && e.boundtime == d.boundtime && e.remoteIp == d.remoteIp && e.remoteMac == d.remoteMac
      && (if alive && rx != [] then out.Some? && out.value.message == Some(Io(rx[0])) && rx == [rx[0]] + rest
          else rest == rx)
      && (alive && rx == [] ==> out == None && e == d)
      && (!alive ==>
            if (jiffies - d.lastshot) % 0x1_0000 >= 200 then out.Some? && out.value.message == Some(Discover)
            else out == None)
      && e.lastshot == (if out.Some? then jiffies else d.lastshot)
      && (if out.Some? then |out.value.packet| <= NETBUF_SZ
                            && e.buf == out.value.packet + Zeros(NETBUF_SZ - |out.value.packet|)
          else e.buf == d.buf)
  {
    hide Datagram;
  }

  const UDP := IP + IP_HLEN

  /** Both addresses and the ports exchanged. */
  function Turned(b: NetBuf): NetBuf {
    Swapped(Swapped(Swapped(b, 0, ETH_ALEN, ETH_ALEN), IP + 12, IP + 16, 4), UDP, UDP + 2, 2)
  }

  /** The datagram in the buffer is taken for an INIT: port, length and address only. */
  predicate IsInit(b: NetBuf) {
    && Field(b, UDP + 2) == PORT
    && (Field(b, UDP + 4) - UDP_HLEN) % 0x1_0000 == 16
    && b[DATA_OFF..DATA_OFF + |MSG_INIT|] == MSG_INIT
  }

  function SenderIp(t: NetBuf): Ip4 { t[IP + 16..IP + 20] }

  function SenderMac(t: NetBuf): Mac { t[0..ETH_ALEN] }

  /** The buffer after the answer to an INIT has been built, in the order of the code. */
  function BoundReply(t: NetBuf): NetBuf {
    var r := WithData(Splice(t, UDP + 2, Be16(PORT))[IP + 8 := IPDEFTTL], Bound(SenderIp(t), SenderMac(t)));
    var z := Splice(Splice(Splice(r, IP + 2, Be16(68)), UDP + 4, Be16(48)), IP + 10, [0, 0]);
    Splice(Splice(z, IP + 10, Be16(CodeChecksum(z[IP..UDP], 0, AVR))), UDP + 6, [0, 0])
  }

  const BOUND_LEN := DATA_OFF + 40

  /** The packet sent in answer to the INIT in `t`. */
  function BoundOutput(t: NetBuf): Output {
    var r: seq<uint8> := BoundReply(t);
    Output(Some(Bound(SenderIp(t), SenderMac(t))), r[..BOUND_LEN])
  }

  /** `process_udp` on the datagram in the buffer. */
  function ReceiveUdp(d: Dev, jiffies: uint16): (Dev, Option<Output>) {
    if Field(d.buf, UDP + 2) != PORT then (d, None)
    else
      var t := Turned(d.buf);
      if !IsInit(d.buf) then (d.(buf := t), None)
      else (Dev(true, jiffies, d.lastshot, SenderIp(t), SenderMac(t), BoundReply(t)), Some(BoundOutput(t)))
  }

  /** The protocol of an IP packet for this device in the buffer. */
  function IpProtocol(b: NetBuf): Option<uint8> {
    if Field(b, 12) == ETH_P_IP then AcceptedProtocol(b[IP..UDP], MY_IP) else None
  }

  /** An echo request that reaches `process_icmp` is a complete one. */
  predicate Tractable(b: NetBuf) {
    IpProtocol(b) == Some(IPPROTO_ICMP) && b[ICMP] == ICMP_ECHO ==> EchoFits(b)
  }

  /** `process_unicast` on a received packet: the rest of the buffer keeps what it held. */
  function Unicast(d: Dev, packet: seq<uint8>, jiffies: uint16): (Dev, Option<Output>)
    requires |packet| <= NETBUF_SZ && (packet == [] || Tractable(Splice(d.buf, 0, packet)))
  {
    if packet == [] then (d, None)
    else
      var b: NetBuf := Splice(d.buf, 0, packet);
      var e := d.(buf := b);
      if Field(b, 12) == ETH_P_ARP then
        if IsArpRequest(b, MY_IP) then
          var r := ArpReply(b, MY_MAC, MY_IP);
          (e.(buf := r), Some(Output(None, r[..ETH_HLEN + ARP_HLEN])))
        else (e, None)
      else if IpProtocol(b) == Some(IPPROTO_ICMP) then
        if b[ICMP] == ICMP_ECHO then
          var r := EchoReply(b, AVR);
          (e.(buf := r), Some(Output(None, r[..ETH_HLEN + Field(b, IP + 2)])))
        else (e, None)
      else if IpProtocol(b) == Some(IPPROTO_UDP) then ReceiveUdp(e, jiffies)
      else (e, None)
  }

  /** The packet is taken for an INIT. */
  predicate Inits(d: Dev, packet: seq<uint8>)
    requires |packet| <= NETBUF_SZ && (packet == [] || Tractable(Splice(d.buf, 0, packet)))
  {
    var out := Unicast(d, packet, 0).1;
    out.Some? && out.value.message.Some?
  }

  /** Other traffic only leaves its traces in the buffer. */
  lemma OtherTraffic(d: Dev, packet: seq<uint8>, jiffies: uint16)
    requires |packet| <= NETBUF_SZ && (packet == [] || Tractable(Splice(d.buf, 0, packet))) && !Inits(d, packet)
    ensures var (e, out) := Unicast(d, packet, jiffies);
      e == d.(buf := e.buf) && (out.Some? ==> out.value.message == None)
  {
    hide Splice, ArpReply, EchoReply, BoundReply, BoundOutput, Turned, IsInit, IpProtocol, Tractable, IsArpRequest;
    BoundOutputIsBound(Turned(Splice(d.buf, 0, packet)));
  }

  /** What a packet leaves in the buffer: its answer, at the front, if it has one; else itself, unless it is a
      datagram for the port. */
  lemma UnicastBuffer(d: Dev, packet: seq<uint8>, jiffies: uint16)
    requires packet != [] && |packet| <= NETBUF_SZ && Tractable(Splice(d.buf, 0, packet))
    ensures var (e, out) := Unicast(d, packet, jiffies);
      var b: NetBuf := Splice(d.buf, 0, packet);
      if out.Some? then |out.value.packet| <= NETBUF_SZ && e.buf[..|out.value.packet|] == out.value.packet
      else (IpProtocol(b) == Some(IPPROTO_UDP) && Field(b, UDP + 2) == PORT) || e.buf == packet + d.buf[|packet|..]
  {
    hide Splice, ArpReply, EchoReply, BoundReply, Turned, IsInit, IsArpRequest, AcceptedProtocol, Word;
    SpliceAtFront(d.buf, packet);
  }

  lemma BoundOutputIsBound(t: NetBuf)
    ensures BoundOutput(t).message == Some(Bound(SenderIp(t), SenderMac(t)))
  {}

  /** `ksz8851_read_packet` and the reaction to it: a frame that has been read and is then given up because
      others were waiting has been stored in the buffer all the same. */
  function Poll(d: Dev, packet: seq<uint8>, kept: bool, jiffies: uint16): (Dev, Option<Output>)
    requires |packet| <= NETBUF_SZ && (kept && packet != [] ==> Tractable(Splice(d.buf, 0, packet)))
  {
    if kept then Unicast(d, packet, jiffies) else (d.(buf := Splice(d.buf, 0, packet)), None)
  }

  class NetBase {
    var bound: bool
    var boundtime: uint16
    var lastshot: uint16
    var remoteIp: Ip4
    var remoteMac: Mac
    const buf: array<uint8>
    const rxRing: Ring

    ghost predicate Valid()
      reads this, rxRing
    {
      buf.Length == NETBUF_SZ && rxRing.Valid()
    }

    ghost function State(): Dev
      requires Valid()
      reads this, buf, rxRing
    {
      Dev(bound, boundtime, lastshot, remoteIp, remoteMac, buf[..])
    }

    constructor (rxRing: Ring)
      requires rxRing.Valid()
      ensures Valid() && fresh(buf) && this.rxRing == rxRing
      ensures !bound && boundtime == lastshot == 0
    {
      bound, boundtime, lastshot := false, 0, 0;
      remoteIp, remoteMac := Zeros(4), Zeros(6);
      buf := new uint8[NETBUF_SZ];
      this.rxRing := rxRing;
    }

    method ProcessPeriodicUdp(button: bool, jiffies: uint16) returns (sent: Option<seq<uint8>>)
      requires Valid()
      modifies this, buf, rxRing
      ensures Valid()
      ensures var (d, rx, out) := Periodic(old(State()), old(rxRing.Queue()), button, jiffies);
        && State() == d && rxRing.Queue() == rx
        && sent == (if out.Some? then Some(out.value.packet) else None)
    {
      hide Datagram, Encode, WithData, Filled, Zeros, Splice;
      sent := None;
      if button {
        bound := false;
      }
      if (jiffies - boundtime) % 0x1_0000 > NET_TIMEOUT * HZ {
        bound := false;
      }
      ghost var s := buf[..];
      if !bound {
        if (jiffies - lastshot) % 0x1_0000 < HZ {
          return;
        }
        var size := StoreDiscover(buf);
        BuildHeaders(buf, None, None, size, s, Discover);
        assert buf[..DATA_OFF + size] == buf[..][..DATA_OFF + size];
        FilledPrefix(Datagram(s, Ones(6), Ones(4), Discover));
        sent := Some(buf[..DATA_OFF + size]);
      } else {
        if rxRing.Count() == 0 {
          return;
        }
        var frame := rxRing.Fetch(rxRing.GetTail().value);
        var size := StoreIo(buf, DATA_OFF, frame);
        IoIsData(s, frame);
        rxRing.Pop();
        BuildHeaders(buf, Some(remoteMac), Some(remoteIp), size, s, Io(frame));
        assert buf[..DATA_OFF + size] == buf[..][..DATA_OFF + size];
        FilledPrefix(Datagram(s, remoteMac, remoteIp, Io(frame)));
        sent := Some(buf[..DATA_OFF + size]);
      }
      lastshot := jiffies;
    }

    /** Exchanges addresses and ports of the datagram in the buffer. */
    method Turn()
      requires Valid()
      modifies buf
      ensures Valid() && State() == old(State()).(buf := Turned(old(State()).buf))
    {
      hide Swapped;
      SwapFields(buf, 0, ETH_ALEN, ETH_ALEN);
      SwapFields(buf, IP + 12, IP + 16, 4);
      SwapFields(buf, UDP, UDP + 2, 2);
    }

    /** `process_unicast` on what the network chip holds; an empty packet for nothing. */
    method ProcessUnicast(packet: seq<uint8>, kept: bool, jiffies: uint16) returns (sent: Option<seq<uint8>>)
      requires Valid() && |packet| <= NETBUF_SZ
      requires kept && packet != [] ==> Tractable(Splice(State().buf, 0, packet))
      modifies this, buf
      ensures Valid()
      ensures var (d, out) := Poll(old(State()), packet, kept, jiffies);
        && State() == d && sent == (if out.Some? then Some(out.value.packet) else None)
    {
      hide Splice, ReceiveUdp, EchoReply, ArpReply, AcceptedProtocol, IsArpRequest;
      sent := None;
      MemCpy(buf, 0, packet);
      if packet == [] || !kept {
        SpliceNothing(old(buf[..]));
        return;
      }
      ghost var b := buf[..];
      if Word(buf[12], buf[13]) == ETH_P_ARP {
        var length := ProcessArp(buf, MY_MAC, MY_IP);
        if length.Some? {
          assert buf[..length.value] == buf[..][..length.value];
          sent := Some(buf[..length.value]);
        }
      } else if Word(buf[12], buf[13]) == ETH_P_IP {
        assert buf[IP..UDP] == b[IP..UDP];
        var proto := GetIpProto(buf, IP, MY_IP);
        if proto == IPPROTO_ICMP {
          var length := ProcessIcmp(buf, AVR);
          if length.Some? {
            assert buf[..length.value] == buf[..][..length.value];
            sent := Some(buf[..length.value]);
          }
        } else if proto == IPPROTO_UDP {
          sent := ProcessUdp(jiffies);
        }
      }
    }

    /** `net_poll` in unicast mode: first a received packet, then the periodic part. */
    method NetPoll(packet: seq<uint8>, kept: bool, button: bool, jiffies: uint16)
      returns (reply: Option<seq<uint8>>, sent: Option<seq<uint8>>)
      requires Valid() && |packet| <= NETBUF_SZ
      requires kept && packet != [] ==> Tractable(Splice(State().buf, 0, packet))
      modifies this, buf, rxRing
      ensures Valid()
      ensures var (e, answer) := Poll(old(State()), packet, kept, jiffies);
        var (d, rx, out) := Periodic(e, old(rxRing.Queue()), button, jiffies);
        && State() == d && rxRing.Queue() == rx
        && reply == (if answer.Some? then Some(answer.value.packet) else None)
        && sent == (if out.Some? then Some(out.value.packet) else None)
    {
      hide Poll, Periodic;
      reply := ProcessUnicast(packet, kept, jiffies);
      sent := ProcessPeriodicUdp(button, jiffies);
    }

    method ProcessUdp(jiffies: uint16) returns (sent: Option<seq<uint8>>)
      requires Valid()
      modifies this, buf
      ensures Valid()
      ensures var (d, out) := ReceiveUdp(old(State()), jiffies);
        && State() == d && sent == (if out.Some? then Some(out.value.packet) else None)
    {
      hide Turned, BoundReply, Encode;
      sent := None;
      ghost var s := buf[..];
      if Word(buf[UDP + 2], buf[UDP + 3]) != PORT {
        return;
      }
      Turn();
      ghost var t := buf[..];
      TurnedKeeps(s);
      var size := (Word(buf[UDP + 4], buf[UDP + 5]) - UDP_HLEN) % 0x1_0000;
      assert buf[DATA_OFF..DATA_OFF + |MSG_INIT|] == t[DATA_OFF..DATA_OFF + |MSG_INIT|];
      if size == 16 && buf[DATA_OFF..DATA_OFF + |MSG_INIT|] == MSG_INIT {
        assert buf[IP + 16..IP + 20] == t[IP + 16..IP + 20] && buf[0..ETH_ALEN] == t[0..ETH_ALEN];
        remoteIp := buf[IP + 16..IP + 20];
        remoteMac := buf[0..ETH_ALEN];
        bound := true;
        boundtime := jiffies;
      } else {
        return;
      }
      BuildReply(buf, remoteIp, remoteMac);
      assert buf[..BOUND_LEN] == buf[..][..BOUND_LEN];
      sent := Some(buf[..BOUND_LEN]);
    }
  }

  lemma SpliceNothing(s: seq<uint8>)
    ensures Splice(s, 0, []) == s
  {}

  lemma FilledPrefix(datagram: seq<uint8>)
    requires |datagram| <= NETBUF_SZ
    ensures Filled(datagram)[..|datagram|] == datagram
  {}

  /** Turning leaves the destination port's length and the data alone. */
  lemma TurnedKeeps(s: NetBuf)
    ensures Turned(s)[UDP + 4..] == s[UDP + 4..]
    ensures Turned(s)[UDP + 4] == s[UDP + 4] && Turned(s)[UDP + 5] == s[UDP + 5]
    ensures Turned(s)[DATA_OFF..DATA_OFF + |MSG_INIT|] == s[DATA_OFF..DATA_OFF + |MSG_INIT|]
  {
    hide Swapped;
    var t := Turned(s);
    assert t[UDP + 4..] == s[UDP + 4..];
  }

  method BuildReply(buf: array<uint8>, ip: Ip4, mac: Mac)
    requires buf.Length == NETBUF_SZ && ip == buf[..][IP + 16..IP + 20] && mac == buf[..][0..ETH_ALEN]
    modifies buf
    ensures buf[..] == BoundReply(old(buf[..]))
  {
    hide Splice, WithData, Encode, CodeChecksum, Be16;
    MemCpy(buf, UDP + 2, Be16(PORT));
    Poke(buf, IP + 8, IPDEFTTL);
    var size := StoreBound(buf, ip, mac);
    MemCpy(buf, IP + 2, Be16(IP_HLEN + UDP_HLEN + size));
    MemCpy(buf, UDP + 4, Be16(UDP_HLEN + size));
    MemCpy(buf, IP + 10, [0, 0]);
    assert buf[IP..UDP] == buf[..][IP..UDP];
    var c := Checksum.Checksum(buf, IP, IP_HLEN, 0, AVR);
    MemCpy(buf, IP + 10, Be16(c));
    MemCpy(buf, UDP + 6, [0, 0]);
  }
}
