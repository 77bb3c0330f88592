/**
 Between the two programs: the host's kernel, which takes datagrams out of Ethernet packets and
 puts them in, and what it makes of the packets the device builds.
 */
module Wire {
  import opened Machine
  import opened Checksum
  import opened Fifo
  import opened Packets
  import opened Osc
  import opened Device

  /** A received datagram: source address, source port and payload. */
  datatype Datagram4 = Datagram4(src: Ip4, port: uint16, payload: seq<uint8>)

  /** The datagram that a host with addresses `mac` and `me` receives on the protocol's port from a
      packet. The UDP checksum field must be zero: the datagram carries none. */
  function Deliver(packet: seq<uint8>, mac: Mac, me: Ip4): Option<Datagram4> {
    if |packet| < DATA_OFF || Field(packet, 12) != ETH_P_IP then None
    else if packet[0..6] != mac && packet[0..6] != Ones(6) then None
    else
      var hdr := packet[IP..UDP];
      var dst: Ip4 := hdr[16..20];
      if (dst == me || dst == Ones(4)) && AcceptedProtocol(hdr, dst) == Some(IPPROTO_UDP)
        && Field(packet, UDP + 2) == PORT && Field(packet, UDP + 6) == 0
        && UDP_HLEN <= Field(packet, UDP + 4) <= |packet| - UDP
      then Some(Datagram4(hdr[12..16], Field(packet, UDP), packet[DATA_OFF..UDP + Field(packet, UDP + 4)]))
      else None
  }

  /** A packet in which the host at `ip` and `mac` sends a payload to the device's port. */
  predicate Carries(packet: seq<uint8>, mac: Mac, ip: Ip4, payload: seq<uint8>) {
    && DATA_OFF + |payload| <= |packet| <= NETBUF_SZ
    && packet[6..12] == mac && Field(packet, 12) == ETH_P_IP
    && AcceptedProtocol(packet[IP..UDP], MY_IP) == Some(IPPROTO_UDP) && packet[IP + 12..IP + 16] == ip
    && Field(packet, UDP + 2) == PORT && Field(packet, UDP + 4) == UDP_HLEN + |payload|
    && packet[DATA_OFF..DATA_OFF + |payload|] == payload
  }

  /** Parts of a packet that is the concatenation of three headers and a payload. */
  lemma PacketParts(eth: seq<uint8>, hdr: seq<uint8>, udp: seq<uint8>, payload: seq<uint8>)
    requires |eth| == ETH_HLEN && |hdr| == IP_HLEN && |udp| == UDP_HLEN
    ensures var p := eth + hdr + udp + payload;
      && p[0..IP] == eth && p[IP..UDP] == hdr && p[UDP..DATA_OFF] == udp && p[DATA_OFF..] == payload
      && p[12] == eth[12] && p[13] == eth[13] && forall i :: 0 <= i < UDP_HLEN ==> p[UDP + i] == udp[i]
  {}

  /** Every datagram the device builds is delivered to the host whose addresses it carries, and in
      broadcast to everyone, with the device's address and port and with exactly the message as its payload. */
  lemma DatagramDelivered(s: NetBuf, dst: Mac, ip: Ip4, m: Message, mac: Mac, me: Ip4)
    requires (dst == mac || dst == Ones(6)) && (ip == me || ip == Ones(4))
    ensures Deliver(Datagram(s, dst, ip, m), mac, me) == Some(Datagram4(MY_IP, PORT, Encode(m)))
  {
    hide Encode, IpHeader, UdpHeader, AcceptedProtocol, Ones;
    var size := |Encode(m)|;
    var eth := EthernetHeader(dst, MY_MAC, ETH_P_IP);
    var tos, id := s[IP + 1], Field(s, IP + 4);
    var hdr := IpHeader(tos, id, IP_HLEN + UDP_HLEN + size, IPPROTO_UDP, MY_IP, ip);
    var udp := UdpHeader(PORT, PORT, size);
    var p := eth + hdr + udp + Encode(m);
    assert p == Datagram(s, dst, ip, m);
    PacketParts(eth, hdr, udp, Encode(m));
    BuiltHeaderAccepted(tos, id, IP_HLEN + UDP_HLEN + size, IPPROTO_UDP, MY_IP, ip);
    UdpHeaderFields(PORT, PORT, size);
    assert p[DATA_OFF..UDP + (UDP_HLEN + size)] == Encode(m);
    assert Field(p, 12) == ETH_P_IP && p[0..6] == eth[0..6] == dst;
  }

  // ----- The device's answer to an INIT -----

  /** The header of the answer: the request's, turned, with new length, time to live and checksum. */
  lemma BoundHeader(t: NetBuf)
    requires t[IP] == 0x45 && t[IP + 9] == IPPROTO_UDP
    ensures var hdr := BoundReply(t)[IP..UDP];
      && AcceptedProtocol(hdr, SenderIp(t)) == Some(IPPROTO_UDP)
      && hdr[12..16] == t[IP + 12..IP + 16] && hdr[16..20] == SenderIp(t)
  {
    hide Splice, Encode, WithData, WordSum, OnesSum, Fold, Be16, CodeSum, Verifies;
    var u := Splice(t, UDP + 2, Be16(PORT))[IP + 8 := IPDEFTTL];
    var r := WithData(u, Bound(SenderIp(t), SenderMac(t)));
    WithDataKeeps(u, Bound(SenderIp(t), SenderMac(t)));
    var z := Splice(Splice(Splice(r, IP + 2, Be16(68)), UDP + 4, Be16(48)), IP + 10, [0, 0]);
    var h := z[IP..UDP];
    assert forall k :: IP + 12 <= k < IP + 20 ==> z[k] == t[k];
    assert forall k :: 12 <= k < 20 ==> h[k] == t[IP + k];
    EvenChecksum(h);
    StoredVerifies(h, 10, WordSum(h));
    var c := Be16(CodeChecksum(h, 0, AVR));
    var hdr := BoundReply(t)[IP..UDP];
    assert hdr == Splice(h, 10, c);
    assert h[12..16] == t[IP + 12..IP + 16] && h[16..20] == t[IP + 16..IP + 20];
    assert hdr[12..16] == h[12..16] && hdr[16..20] == h[16..20];
  }

  lemma BoundReplyFields(t: NetBuf)
    ensures var r := BoundReply(t);
      && r[0..6] == t[0..6] && r[12] == t[12] && r[13] == t[13] && r[UDP] == t[UDP] && r[UDP + 1] == t[UDP + 1]
      && Field(r, UDP + 2) == PORT && Field(r, UDP + 4) == 48 && Field(r, UDP + 6) == 0
      && r[DATA_OFF..BOUND_LEN] == Encode(Bound(SenderIp(t), SenderMac(t)))
  {
    hide Splice, Encode, CodeChecksum, Be16, Word;
    WithDataKeeps(Splice(t, UDP + 2, Be16(PORT))[IP + 8 := IPDEFTTL], Bound(SenderIp(t), SenderMac(t)));
    var r := BoundReply(t);
    assert r[UDP + 2] == Be16(PORT)[0] && r[UDP + 3] == Be16(PORT)[1];
    assert r[UDP + 4] == Be16(48)[0] && r[UDP + 5] == Be16(48)[1];
    WordZero();
  }

  lemma WordZero()
    ensures Word(0, 0) == 0
  {}

  lemma BoundDelivered(t: NetBuf)
    requires Field(t, 12) == ETH_P_IP && t[IP] == 0x45 && t[IP + 9] == IPPROTO_UDP
    requires t[IP + 12..IP + 16] == MY_IP && Field(t, UDP) == PORT
    ensures BoundOutput(t).packet[0..6] == SenderMac(t)
    ensures Deliver(BoundOutput(t).packet, SenderMac(t), SenderIp(t))
         == Some(Datagram4(MY_IP, PORT, Encode(Bound(SenderIp(t), SenderMac(t)))))
  {
    hide Encode, BoundReply, AcceptedProtocol, Ones;
    BoundHeader(t);
    BoundReplyFields(t);
    var r: seq<uint8> := BoundReply(t);
    var p := r[..BOUND_LEN];
    assert p[IP..UDP] == r[IP..UDP] && p[DATA_OFF..BOUND_LEN] == r[DATA_OFF..BOUND_LEN] && p[0..6] == r[0..6];
  }

  /** Whatever the state of the device, an INIT from the host binds it to that host and is answered
      by a BOUND that is delivered to the host. */
  lemma InitBinds(d: Dev, packet: seq<uint8>, mac: Mac, ip: Ip4, jiffies: uint16)
    requires Carries(packet, mac, ip, Encode(Init))
    ensures Tractable(Splice(d.buf, 0, packet))
    ensures var (e, out) := Unicast(d, packet, jiffies);
      && e.bound && e.boundtime == jiffies && e.remoteIp == ip && e.remoteMac == mac && e.lastshot == d.lastshot
      && out.Some? && out.value.message == Some(Bound(ip, mac))
      && Deliver(out.value.packet, mac, ip) == Some(Datagram4(MY_IP, PORT, Encode(Bound(ip, mac))))
  {
    hide Splice, Turned, BoundOutput, BoundReply, Deliver, Encode, AcceptedProtocol;
    var b: NetBuf := Splice(d.buf, 0, packet);
    InitInBuffer(d.buf, packet, mac, ip);
    TurnedAddresses(b);
    BoundDelivered(Turned(b));
    BoundOutputIsBound(Turned(b));
  }

  /** What the device finds in its buffer once the packet of an INIT has been read. */
  lemma InitInBuffer(s: NetBuf, packet: seq<uint8>, mac: Mac, ip: Ip4)
    requires Carries(packet, mac, ip, Encode(Init))
    ensures var b: NetBuf := Splice(s, 0, packet);
      && Field(b, 12) == ETH_P_IP && IpProtocol(b) == Some(IPPROTO_UDP) && b[IP] == 0x45 && b[IP + 9] == IPPROTO_UDP
      && b[6..12] == mac && b[IP + 12..IP + 16] == ip && b[IP + 16..IP + 20] == MY_IP
      && Field(b, UDP + 2) == PORT && IsInit(b)
  {
    hide Splice, Encode, Verifies, Word;
    var b: NetBuf := Splice(s, 0, packet);
    assert b[IP..UDP] == packet[IP..UDP];
    assert b[DATA_OFF..DATA_OFF + 16] == packet[DATA_OFF..DATA_OFF + 16] == Encode(Init);
    InitPrefix(b);
    assert b[6..12] == packet[6..12] && b[IP + 12..IP + 16] == packet[IP + 12..IP + 16];
    assert b[IP + 16..IP + 20] == packet[IP..UDP][16..20];
  }

  lemma InitPrefix(b: NetBuf)
    requires b[DATA_OFF..DATA_OFF + 16] == Encode(Init)
    ensures b[DATA_OFF..DATA_OFF + |MSG_INIT|] == MSG_INIT
  {
    assert b[DATA_OFF..DATA_OFF + |MSG_INIT|] == b[DATA_OFF..DATA_OFF + 16][..|MSG_INIT|];
  }

  lemma TurnedAddresses(b: NetBuf)
    ensures var t := Turned(b);
      && SenderMac(t) == b[6..12] && SenderIp(t) == b[IP + 12..IP + 16] && t[IP + 12..IP + 16] == b[IP + 16..IP + 20]
      && Field(t, 12) == Field(b, 12) && Field(t, UDP) == Field(b, UDP + 2)
      && t[IP] == b[IP] && t[IP + 9] == b[IP + 9]
  {
    hide Swapped, Word;
    var e := Swapped(b, 0, ETH_ALEN, ETH_ALEN);
    var f := Swapped(e, IP + 12, IP + 16, 4);
    var t := Turned(b);
    assert t[0..6] == f[0..6] == e[0..6];
    assert t[IP + 12..IP + 16] == f[IP + 12..IP + 16] && t[IP + 16..IP + 20] == f[IP + 16..IP + 20];
    assert e[IP + 12..IP + 16] == b[IP + 12..IP + 16] && e[IP + 16..IP + 20] == b[IP + 16..IP + 20];
    assert t[UDP..UDP + 2] == f[UDP + 2..UDP + 4] == b[UDP + 2..UDP + 4];
    assert t[UDP] == t[UDP..UDP + 2][0] && t[UDP + 1] == t[UDP..UDP + 2][1];
  }

  /** An INIT that is read alone binds the device, and the periodic part of the same call already sends a
      waiting frame to its sender; one that is given up because others wait does nothing but fill the buffer. */
  lemma PolledInit(d: Dev, packet: seq<uint8>, kept: bool, mac: Mac, ip: Ip4, rx: seq<Frame>, jiffies: uint16)
    requires Carries(packet, mac, ip, Encode(Init))
    ensures Tractable(Splice(d.buf, 0, packet))
    ensures var (e, answer) := Poll(d, packet, kept, jiffies);
      if kept then
        && e.bound && e.boundtime == jiffies && answer.Some?
        && Deliver(answer.value.packet, mac, ip) == Some(Datagram4(MY_IP, PORT, Encode(Bound(ip, mac))))
        && (rx != [] ==> var out := Periodic(e, rx, false, jiffies).2;
              out.Some? && Deliver(out.value.packet, mac, ip) == Some(Datagram4(MY_IP, PORT, Encode(Io(rx[0])))))
      else e == d.(buf := packet + d.buf[|packet|..]) && answer == None
  {
    hide Splice, Unicast, Deliver, Encode, Carries, Datagram, Filled;
    InitBinds(d, packet, mac, ip, jiffies);
    CarriesFits(packet, mac, ip, Encode(Init));
    SpliceAtFront(d.buf, packet);
    if kept && rx != [] {
      var e := Poll(d, packet, kept, jiffies).0;
      DatagramDelivered(e.buf, mac, ip, Io(rx[0]), mac, ip);
    }
  }

  lemma CarriesFits(packet: seq<uint8>, mac: Mac, ip: Ip4, payload: seq<uint8>)
    requires Carries(packet, mac, ip, payload)
    ensures DATA_OFF <= |packet| <= NETBUF_SZ
  {}

  // ----- ARP and ICMP -----

  lemma SlicesOfPrefix(s: seq<uint8>, n: nat)
    requires n <= |s|
    ensures forall i, j :: 0 <= i <= j <= n ==> s[..n][i..j] == s[i..j]
  {
    forall i, j | 0 <= i <= j <= n ensures s[..n][i..j] == s[i..j] {
      assert s[..n][i..j] == s[i..j];
    }
  }

  /** What the device finds in its buffer once a packet has been read: the packet. */
  lemma PacketInBuffer(s: NetBuf, packet: seq<uint8>)
    requires |packet| <= NETBUF_SZ
    ensures var b: NetBuf := Splice(s, 0, packet);
      b[..|packet|] == packet && forall i, j :: 0 <= i <= j <= |packet| ==> b[i..j] == packet[i..j]
  {
    hide Splice;
    var b: NetBuf := Splice(s, 0, packet);
    forall i, j | 0 <= i <= j <= |packet| ensures b[i..j] == packet[i..j] {
      assert b[i..j] == packet[i..j];
    }
  }

  /** A complete ARP packet is answered exactly if it asks, for Ethernet and IPv4, for the device's address;
      the answer, written out, goes to the asker and names the device's hardware address. */
  lemma ArpAnsweredExactly(d: Dev, packet: seq<uint8>, jiffies: uint16)
    requires 42 <= |packet| <= NETBUF_SZ && packet[12..14] == [8, 6]
    ensures Tractable(Splice(d.buf, 0, packet))
    ensures var (e, out) := Unicast(d, packet, jiffies);
      out == if packet[14..22] == [0, 1, 8, 0, 6, 4, 0, 1] && packet[38..42] == MY_IP
             then Some(Output(None, packet[6..12] + MY_MAC + [8, 6, 0, 1, 8, 0, 6, 4, 0, 2]
                                    + MY_MAC + MY_IP + packet[22..28] + packet[28..32]))
             else None
  {
    hide Splice, ArpReply, EchoReply, ReceiveUdp, AcceptedProtocol, Word;
    var b: NetBuf := Splice(d.buf, 0, packet);
    PacketInBuffer(d.buf, packet);
    assert packet[12..14][0] == b[12] && packet[12..14][1] == b[13];
    ArpWords();
    IsArpRequestBytes(b, packet);
    if IsArpRequest(b, MY_IP) {
      ArpReplyBytes(b, packet);
    }
  }

  lemma ArpWords()
    ensures Word(8, 6) == ETH_P_ARP && Word(0, 2) == 2 && Word(8, 0) == ETH_P_IP
    ensures forall h: uint8, l: uint8 :: (Word(h, l) == 1 <==> h == 0 && l == 1)
    ensures forall h: uint8, l: uint8 :: (Word(h, l) == 2 <==> h == 0 && l == 2)
    ensures forall h: uint8, l: uint8 :: (Word(h, l) == ETH_P_IP <==> h == 8 && l == 0)
  {}

  lemma IsArpRequestBytes(b: NetBuf, packet: seq<uint8>)
    requires 42 <= |packet| <= NETBUF_SZ && b[..|packet|] == packet
    ensures IsArpRequest(b, MY_IP) <==> packet[14..22] == [0, 1, 8, 0, 6, 4, 0, 1] && packet[38..42] == MY_IP
  {
    hide Word;
    ArpWords();
    var q := b[14..22];
    assert q == packet[14..22] && b[38..42] == packet[38..42];
    assert forall k :: 0 <= k < 8 ==> q[k] == b[14 + k];
    assert q == [q[0], q[1], q[2], q[3], q[4], q[5], q[6], q[7]];
  }

  lemma ArpReplyBytes(b: NetBuf, packet: seq<uint8>)
    requires 42 <= |packet| <= NETBUF_SZ && b[..|packet|] == packet && IsArpRequest(b, MY_IP)
    requires packet[12..14] == [8, 6]
    ensures ArpReply(b, MY_MAC, MY_IP)[..42]
         == packet[6..12] + MY_MAC + [8, 6, 0, 1, 8, 0, 6, 4, 0, 2] + MY_MAC + MY_IP + packet[22..28] + packet[28..32]
  {
    hide Splice, ArpReply, Word;
    ArpReplyAnswers(b, MY_MAC, MY_IP);
    IsArpRequestBytes(b, packet);
    ArpWords();
    var r := ArpReply(b, MY_MAC, MY_IP);
    assert r[14..20] == b[14..20] == packet[14..22][..6] == [0, 1, 8, 0, 6, 4];
    assert r[20..22] == [r[20], r[21]] == [0, 2];
    assert r[12..14] == b[12..14] == packet[12..14];
    assert b[6..12] == packet[6..12] && b[22..28] == packet[22..28] && b[28..32] == packet[28..32];
    assert r[..42] == r[0..6] + r[6..12] + r[12..14] + r[14..20] + r[20..22] + r[22..28] + r[28..32]
      + r[32..38] + r[38..42];
  }

  /** A complete ICMP message for the device is answered exactly if it is an echo request, by a packet of the
      same length to its sender with identifier, sequence number and data unchanged. A receiver accepts its
      header, and its message exactly unless the sign of an odd last byte reaches the sum. */
  lemma EchoAnsweredExactly(d: Dev, packet: seq<uint8>, jiffies: uint16)
    requires |packet| <= NETBUF_SZ && EchoFits(packet) && Field(packet, 12) == ETH_P_IP
    requires AcceptedProtocol(packet[IP..UDP], MY_IP) == Some(IPPROTO_ICMP)
    ensures Tractable(Splice(d.buf, 0, packet))
    ensures var (e, out) := Unicast(d, packet, jiffies);
      && (out.Some? <==> packet[ICMP] == 8)
      && (out.Some? ==> EchoAnswer(packet, out.value.packet))
  {
    hide Splice, ArpReply, EchoReply, ReceiveUdp, AcceptedProtocol, Word, EchoAnswer, IsArpRequest;
    var b: NetBuf := Splice(d.buf, 0, packet);
    PacketInBuffer(d.buf, packet);
    assert b[IP..UDP] == packet[IP..UDP];
    if packet[ICMP] == ICMP_ECHO {
      EchoReplyOnWire(b, packet);
    }
  }

  /** `r` is the answer to the echo request in `p`. */
  predicate EchoAnswer(p: seq<uint8>, r: seq<uint8>)
    requires EchoFits(p)
  {
    var end := IP + Field(p, IP + 2);
    && |r| == end
    && r[0..6] == p[6..12] && r[6..12] == p[0..6] && r[12..14] == p[12..14]
    && r[IP + 12..IP + 16] == p[IP + 16..IP + 20] && r[IP + 16..IP + 20] == p[IP + 12..IP + 16]
    && r[ICMP] == 0 && r[ICMP + 1] == p[ICMP + 1] && r[ICMP + 4..] == p[ICMP + 4..end]
    && Verifies(r[IP..ICMP]) && (Verifies(r[ICMP..]) <==> !SignReachesSum(ReplyMessage(p), 0, AVR))
  }

  lemma EchoReplyOnWire(b: NetBuf, packet: seq<uint8>)
    requires |packet| <= NETBUF_SZ && b[..|packet|] == packet && EchoFits(packet)
    ensures EchoFits(b) && Field(b, IP + 2) == Field(packet, IP + 2)
    ensures EchoAnswer(packet, EchoReply(b, AVR)[..IP + Field(packet, IP + 2)])
  {
    hide EchoReply, Verifies, SignReachesSum, Word;
    EchoReplyAnswers(b, AVR);
    EchoReplyVerifies(b, AVR);
    var r, end := EchoReply(b, AVR), IP + Field(packet, IP + 2);
    SlicesOfPrefix(b, |packet|);
    SlicesOfPrefix(r, end);
    assert ReplyMessage(b) == ReplyMessage(packet);
    assert r[12..14] == r[12..IP + 8][..2] == b[12..IP + 8][..2] == packet[12..14];
    assert r[ICMP + 4..end] == r[ICMP + 4..][..end - ICMP - 4] == b[ICMP + 4..][..end - ICMP - 4]
      == packet[ICMP + 4..end];
    assert r[..end][ICMP..] == r[..end][ICMP..end] && r[..end][ICMP + 4..] == r[..end][ICMP + 4..end];
  }

  // ----- Which packets bind -----

  /** An accepted UDP datagram to the port with sixteen bytes of data that begin with the INIT's address. */
  predicate InitPacket(packet: seq<uint8>)
    requires 58 <= |packet|
  {
    && Field(packet, 12) == 0x800 && AcceptedProtocol(packet[14..34], MY_IP) == Some(17)
    && Field(packet, 36) == 9999 && Field(packet, 38) == 24 && packet[42..51] == MSG_INIT
  }

  /** A packet binds the device exactly if it is of this kind; the device is then bound to its sender from this
      tick on. */
  lemma BindsExactly(d: Dev, packet: seq<uint8>, jiffies: uint16)
    requires 58 <= |packet| <= NETBUF_SZ && Tractable(Splice(d.buf, 0, packet))
    ensures var (e, out) := Unicast(d, packet, jiffies);
      && (Inits(d, packet) <==> InitPacket(packet))
      && e == if InitPacket(packet) then Dev(true, jiffies, d.lastshot, packet[26..30], packet[6..12], e.buf)
              else d.(buf := e.buf)
  {
    hide Splice, Turned, BoundReply, AcceptedProtocol, Word, ArpReply, EchoReply, IsArpRequest, EchoFits;
    var b: NetBuf := Splice(d.buf, 0, packet);
    PacketInBuffer(d.buf, packet);
    TurnedAddresses(b);
    assert b[IP..UDP] == packet[14..34] && b[42..51] == packet[42..51];
    assert b[6..12] == packet[6..12] && b[26..30] == packet[26..30];
    FieldInBuffer(b, packet, 12);
    FieldInBuffer(b, packet, 36);
    FieldInBuffer(b, packet, 38);
    OneLength(Field(b, 38));
  }

  lemma FieldInBuffer(b: NetBuf, packet: seq<uint8>, i: nat)
    requires i + 2 <= |packet| <= NETBUF_SZ && b[..|packet|] == packet
    ensures Field(b, i) == Field(packet, i)
  {
    assert b[i] == b[..|packet|][i] && b[i + 1] == b[..|packet|][i + 1];
  }

  lemma OneLength(x: uint16)
    ensures (x - UDP_HLEN) % 0x1_0000 == 16 <==> x == 24
  {}

  /** Any other accepted datagram to the port only leaves itself in the buffer, with addresses and ports
      exchanged. */
  lemma StrayDatagram(d: Dev, packet: seq<uint8>, jiffies: uint16)
    requires 58 <= |packet| <= NETBUF_SZ && Field(packet, 12) == ETH_P_IP
    requires AcceptedProtocol(packet[IP..UDP], MY_IP) == Some(IPPROTO_UDP)
    requires Field(packet, UDP + 2) == PORT && !IsInit(Splice(d.buf, 0, packet))
    ensures Tractable(Splice(d.buf, 0, packet))
    ensures var (e, out) := Unicast(d, packet, jiffies);
      && out == None && e == d.(buf := e.buf)
      && e.buf[0..6] == packet[6..12] && e.buf[6..12] == packet[0..6]
      && e.buf[26..30] == packet[30..34] && e.buf[30..34] == packet[26..30]
      && e.buf[34..36] == packet[36..38] && e.buf[36..38] == packet[34..36] && e.buf[38..|packet|] == packet[38..]
      && e.buf[12..26] == packet[12..26]
  {
    hide Splice, Swapped, AcceptedProtocol, Word, EchoFits, IsInit;
    var b: NetBuf := Splice(d.buf, 0, packet);
    PacketInBuffer(d.buf, packet);
    FieldInBuffer(b, packet, 12);
    FieldInBuffer(b, packet, UDP + 2);
    assert b[IP..UDP] == packet[IP..UDP];
    TurnedParts(b);
    assert Turned(b)[38..|packet|] == b[38..|packet|] == packet[38..];
  }

  lemma TurnedParts(b: NetBuf)
    ensures var t := Turned(b);
      && t[0..6] == b[6..12] && t[6..12] == b[0..6] && t[12..26] == b[12..26]
      && t[26..30] == b[30..34] && t[30..34] == b[26..30] && t[34..36] == b[36..38] && t[36..38] == b[34..36]
      && t[38..] == b[38..] && forall n :: 38 <= n <= NETBUF_SZ ==> t[38..n] == b[38..n]
  {
    hide Swapped;
    var e := Swapped(b, 0, ETH_ALEN, ETH_ALEN);
    var f := Swapped(e, IP + 12, IP + 16, 4);
    var t := Turned(b);
    assert t[0..6] == f[0..6] == e[0..6] && t[6..12] == f[6..12] == e[6..12];
    assert t[26..30] == f[26..30] && t[30..34] == f[30..34] && e[26..30] == b[26..30] && e[30..34] == b[30..34];
    assert f[34..36] == b[34..36] && f[36..38] == b[36..38];
  }
}
