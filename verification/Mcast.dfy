/** Received frames sent to an IPv6 multicast group, `process_mcast6` of firmware/net/base.c. */
module Mcast {
  import opened Machine
  import opened Checksum
  import opened Fifo
  import opened Packets
  import opened Osc
  import opened Device

  const MCAST_MAC6: Mac := [0x33, 0x33, 0x00, 0x24, 0x00, 0x01]
  const MY_IP6: Ip6 := [0xfe, 0x80, 0, 0, 0, 0, 0, 0, 0x02, 0x21, 0xf3, 0xff, 0xfe, 0x00, 0x88, 0x51]
  const MCAST_IP6: Ip6 := [0xff, 0x02, 0, 0, 0, 0, 0, 0, 0, 0, 0, 0, 0, 0x24, 0, 0x01]

  const UDP6 := ETH_HLEN + IPV6_HLEN
  const DATAV6_OFF := UDP6 + UDP_HLEN
  const LEN6 := DATAV6_OFF + 32

  /** The UDP datagram before its checksum is stored. */
  function Plain(frame: Frame): (r: seq<uint8>)
    ensures |r| == UDP_HLEN + 32
  {
    UdpHeader(PORT, PORT, 32) + Encode(Io(frame))
  }

  /** The packet with a frame; the buffer `s` supplies the flow label. */
  function Packet6(s: seq<uint8>, frame: Frame): (r: seq<uint8>)
    requires |s| == NETBUF_SZ
    ensures |r| == LEN6
  {
    EthernetHeader(MCAST_MAC6, MY_MAC, ETH_P_IPV6)
    + Ip6Header(s, IP, MCAST_IP6, MY_IP6, IPPROTO_UDP, UDP_HLEN + 32)
    + Udp6Stored(MY_IP6, MCAST_IP6, Plain(frame))
  }

  method ProcessMcast6(buf: array<uint8>, rxRing: Ring) returns (sent: Option<seq<uint8>>)
    requires buf.Length == NETBUF_SZ && rxRing.Valid()
    modifies buf, rxRing
    ensures rxRing.Valid()
    ensures var q, s := old(rxRing.Queue()), old(buf[..]);
      if q == [] then sent == None && rxRing.Queue() == q && buf[..] == s
      else sent == Some(Packet6(s, q[0])) && rxRing.Queue() == q[1..] && buf[..] == Filled(Packet6(s, q[0]))
  {
    hide Splice, Zeros, Encode, EthernetHeader, Ip6Header, UdpHeader, Udp6Chunks, StreamSum, Fold, Be16;
    hide Packet6, Filled, Plain;
    if rxRing.Count() == 0 {
      return None;
    }
    ghost var s := buf[..];
    var frame := rxRing.Fetch(rxRing.GetTail().value);
    var size := StoreIo(buf, DATAV6_OFF, frame);
    rxRing.Pop();
    BuildEthernet(buf, 0, Some(MCAST_MAC6), MY_MAC, ETH_P_IPV6);
    BuildIpv6(buf, IP, MCAST_IP6, MY_IP6, IPPROTO_UDP, UDP_HLEN + size);
    BuildUdp(buf, UDP6, PORT, PORT, size);
    BuildUdpChecksumV6(buf, IP, UDP6, size);
    Built6(s, frame);
    assert buf[..LEN6] == buf[..][..LEN6];
    FilledPrefix(Packet6(s, frame));
    sent := Some(buf[..DATAV6_OFF + size]);
  }

  /** The buffer before the checksum is computed. */
  function Headed(s: seq<uint8>, frame: Frame): (r: seq<uint8>)
    requires |s| == NETBUF_SZ
    ensures |r| == NETBUF_SZ
  {
    var d := Splice(s, DATAV6_OFF, Encode(Io(frame)) + Zeros(NETBUF_SZ - DATAV6_OFF - 32));
    var e := Splice(d, 0, EthernetHeader(MCAST_MAC6, MY_MAC, ETH_P_IPV6));
    var h := Splice(e, IP, Ip6Header(e, IP, MCAST_IP6, MY_IP6, IPPROTO_UDP, UDP_HLEN + 32));
    Splice(h, UDP6, UdpHeader(PORT, PORT, 32))
  }

  lemma Ip6HeaderSame(s: seq<uint8>, e: seq<uint8>)
    requires |s| == |e| == NETBUF_SZ && forall i :: IP <= i < IP + 4 ==> e[i] == s[i]
    ensures Ip6Header(e, IP, MCAST_IP6, MY_IP6, IPPROTO_UDP, UDP_HLEN + 32)
         == Ip6Header(s, IP, MCAST_IP6, MY_IP6, IPPROTO_UDP, UDP_HLEN + 32)
  {
    assert e[IP + 1..IP + 4] == s[IP + 1..IP + 4];
  }

  lemma HeadedParts(s: seq<uint8>, frame: Frame)
    requires |s| == NETBUF_SZ
    ensures Headed(s, frame) == EthernetHeader(MCAST_MAC6, MY_MAC, ETH_P_IPV6)
      + Ip6Header(s, IP, MCAST_IP6, MY_IP6, IPPROTO_UDP, UDP_HLEN + 32) + Plain(frame) + Zeros(NETBUF_SZ - LEN6)
  {
    hide Zeros, Encode, EthernetHeader, UdpHeader, Ip6Header, Splice;
    var tail := Encode(Io(frame)) + Zeros(NETBUF_SZ - DATAV6_OFF - 32);
    var d := Splice(s, DATAV6_OFF, tail);
    var eth := EthernetHeader(MCAST_MAC6, MY_MAC, ETH_P_IPV6);
    var hdr := Ip6Header(s, IP, MCAST_IP6, MY_IP6, IPPROTO_UDP, UDP_HLEN + 32);
    var udp := UdpHeader(PORT, PORT, 32);
    Ip6HeaderSame(s, Splice(d, 0, eth));
    SpliceAdjacent(d, 0, eth, hdr);
    SpliceAdjacent(d, 0, eth + hdr, udp);
    SpliceFront(s, eth + hdr + udp, tail);
    assert eth + hdr + udp + tail == eth + hdr + Plain(frame) + Zeros(NETBUF_SZ - LEN6);
  }

  lemma SpliceFront(s: seq<uint8>, head: seq<uint8>, tail: seq<uint8>)
    requires |s| == |head| + |tail|
    ensures Splice(Splice(s, |head|, tail), 0, head) == head + tail
  {}

  lemma Ip6Addresses(s: seq<uint8>)
    requires |s| == NETBUF_SZ
    ensures var h := Ip6Header(s, IP, MCAST_IP6, MY_IP6, IPPROTO_UDP, UDP_HLEN + 32);
      h[8..24] == MY_IP6 && h[24..40] == MCAST_IP6 && h[6] == IPPROTO_UDP && Field(h, 4) == UDP_HLEN + 32
  {}

  lemma Built6(s: seq<uint8>, frame: Frame)
    requires |s| == NETBUF_SZ
    ensures var t := Headed(s, frame);
      var chunks := Udp6Chunks(t[IP + 8..IP + 24], t[IP + 24..IP + 40], t[UDP6..LEN6]);
      Splice(t, UDP6 + 6, Be16(0xFFFF - Fold(StreamSum(0, chunks)))) == Filled(Packet6(s, frame))
  {
    hide Zeros, Encode, EthernetHeader, Ip6Header, UdpHeader, Udp6Chunks, StreamSum, Fold, Be16, Headed, Plain, Splice;
    HeadedParts(s, frame);
    Ip6Addresses(s);
    var t := Headed(s, frame);
    var eth := EthernetHeader(MCAST_MAC6, MY_MAC, ETH_P_IPV6);
    var hdr := Ip6Header(s, IP, MCAST_IP6, MY_IP6, IPPROTO_UDP, UDP_HLEN + 32);
    var udp := Plain(frame);
    assert t[IP + 8..IP + 24] == hdr[8..24] && t[IP + 24..IP + 40] == hdr[24..40] && t[UDP6..LEN6] == udp;
    var c := Be16(0xFFFF - Fold(StreamSum(0, Udp6Chunks(MY_IP6, MCAST_IP6, udp))));
    assert Splice(t, UDP6 + 6, c) == eth + hdr + Splice(udp, 6, c) + Zeros(NETBUF_SZ - LEN6);
  }

  /** A receiver finds in the packet the addresses and length of the IPv6 header, a datagram whose
      checksum verifies over them, and the frame. */
  lemma Mcast6Verifies(s: seq<uint8>, frame: Frame)
    requires |s| == NETBUF_SZ
    ensures var p := Packet6(s, frame);
      var udp := p[UDP6..];
      && Field(p, 12) == ETH_P_IPV6 && Field(p, IP + 4) == |udp| && p[IP + 6] == IPPROTO_UDP
      && p[IP + 8..IP + 24] == MY_IP6 && p[IP + 24..IP + 40] == MCAST_IP6
      && Verifies(PseudoHeader(p[IP + 8..IP + 24], p[IP + 24..IP + 40], |udp|, p[IP + 6]) + udp)
      && Field(udp, 0) == Field(udp, 2) == PORT && Field(udp, 4) == |udp| && udp[UDP_HLEN..] == Encode(Io(frame))
  {
    hide Encode, Ip6Header, PseudoHeader, Verifies, StreamSum, Fold, Udp6Chunks, Splice, Zeros;
    Ip6Addresses(s);
    var plain := Plain(frame);
    var eth := EthernetHeader(MCAST_MAC6, MY_MAC, ETH_P_IPV6);
    var hdr := Ip6Header(s, IP, MCAST_IP6, MY_IP6, IPPROTO_UDP, UDP_HLEN + 32);
    var stored := Udp6Stored(MY_IP6, MCAST_IP6, plain);
    var p := Packet6(s, frame);
    assert p[UDP6..] == stored && p[IP..UDP6] == hdr && p[..IP] == eth;
    assert p[IP + 8..IP + 24] == hdr[8..24] && p[IP + 24..IP + 40] == hdr[24..40];
    PlainFields(frame);
    Udp6Verifies(MY_IP6, MCAST_IP6, plain);
    assert stored[UDP_HLEN..] == plain[UDP_HLEN..];
  }

  lemma PlainFields(frame: Frame)
    ensures var u := Plain(frame);
      && Field(u, 0) == Field(u, 2) == PORT && Field(u, 4) == UDP_HLEN + 32 && u[6] == u[7] == 0
      && u[UDP_HLEN..] == Encode(Io(frame))
  {
    hide Encode, UdpHeader, Word;
    UdpHeaderFields(PORT, PORT, 32);
    UdpHeaderNoSum(PORT, PORT, 32);
  }
}
