/** Packet building and checking of firmware/net/net.c, in place in one byte buffer. */
module Packets {
  import opened Machine
  import opened Checksum

  const ETH_ALEN := 6
  const ETH_HLEN := 14
  const IP_HLEN := 20
  const IPV6_HLEN := 40
  const UDP_HLEN := 8
  const IPDEFTTL: uint8 := 64
  const IPPROTO_ICMP: uint8 := 1
  const IPPROTO_UDP: uint8 := 17
  const ICMP_ECHOREPLY: uint8 := 0
  const ICMP_ECHO: uint8 := 8
  const ETH_P_IP: uint16 := 0x0800
  const ETH_P_ARP: uint16 := 0x0806
  const ETH_P_IPV6: uint16 := 0x86DD

  /** The firmware is compiled for the AVR. */
  const AVR := Int16

  type Mac = s: seq<uint8> | |s| == ETH_ALEN witness Zeros(6)
  type Ip4 = s: seq<uint8> | |s| == 4 witness Zeros(4)
  type Ip6 = s: seq<uint8> | |s| == 16 witness Zeros(16)

  function Ones(n: nat): (r: seq<uint8>)
    ensures |r| == n
  {
    seq(n, _ => 0xFF)
  }

  /** A 16-bit field in network order. */
  function Field(s: seq<uint8>, i: nat): uint16
    requires i + 2 <= |s|
  {
    Word(s[i], s[i + 1])
  }

  // ----- Ethernet -----

  function EthernetHeader(dst: Mac, src: Mac, proto: uint16): (r: seq<uint8>)
    ensures |r| == ETH_HLEN
  {
    dst + src + Be16(proto)
  }

  /** A missing destination stands for the broadcast address. */
  method BuildEthernet(buf: array<uint8>, h: nat, dst: Option<Mac>, src: Mac, proto: uint16)
    requires h + ETH_HLEN <= buf.Length
    modifies buf
    ensures buf[..] == Splice(old(buf[..]), h, EthernetHeader(if dst.Some? then dst.value else Ones(6), src, proto))
  {
    hide Splice, Be16;
    ghost var s, d := buf[..], if dst.Some? then dst.value else Ones(6);
    MemCpy(buf, h, if dst.Some? then dst.value else Ones(6));
    MemCpy(buf, h + ETH_ALEN, src);
    MemCpy(buf, h + 12, Be16(proto));
    SpliceAdjacent(s, h, d, src);
    SpliceAdjacent(s, h, d + src, Be16(proto));
  }

  /** The two fields of `n` bytes at `i` and `j`, exchanged. */
  function Swapped(s: seq<uint8>, i: nat, j: nat, n: nat): (r: seq<uint8>)
    requires i + n <= j && j + n <= |s|
    ensures |r| == |s|
    ensures r[i..i + n] == s[j..j + n] && r[j..j + n] == s[i..i + n]
    ensures forall k :: 0 <= k < |s| && !(i <= k < i + n) && !(j <= k < j + n) ==> r[k] == s[k]
  {
    Splice(Splice(s, i, s[j..j + n]), j, s[i..i + n])
  }

  method SwapFields(buf: array<uint8>, i: nat, j: nat, n: nat)
    requires i + n <= j && j + n <= buf.Length
    modifies buf
    ensures buf[..] == Swapped(old(buf[..]), i, j, n)
  {
    var tmp := buf[j..j + n];
    MemCpy(buf, j, buf[i..i + n]);
    MemCpy(buf, i, tmp);
  }

  // ----- ARP -----

  const ARP := ETH_HLEN
  const ARP_HLEN := 28

  /** A request for the hardware address of `ip`. */
  predicate IsArpRequest(p: seq<uint8>, ip: Ip4)
    requires ETH_HLEN + ARP_HLEN <= |p|
  {
    && Field(p, ARP) == 1 && Field(p, ARP + 2) == ETH_P_IP && p[ARP + 4] == 6 && p[ARP + 5] == 4
    && Field(p, ARP + 6) == 1 && p[ARP + 24..ARP + 28] == ip
  }

  /** The request turned into its answer: the sender becomes the target. */
  function ArpReply(p: seq<uint8>, mac: Mac, ip: Ip4): (r: seq<uint8>)
    requires ETH_HLEN + ARP_HLEN <= |p|
    ensures |r| == |p|
  {
    var eth := Splice(Splice(p, 0, p[6..12]), 6, mac);
    var op := Splice(eth, ARP + 6, Be16(2));
    var target := Splice(Splice(op, ARP + 24, op[ARP + 14..ARP + 18]), ARP + 18, op[ARP + 8..ARP + 14]);
    Splice(Splice(target, ARP + 14, ip), ARP + 8, mac)
  }

  /** `process_arp`; returns the length of the packet sent. */
  method ProcessArp(buf: array<uint8>, mac: Mac, ip: Ip4) returns (sent: Option<nat>)
    requires ETH_HLEN + ARP_HLEN <= buf.Length
    modifies buf
    ensures IsArpRequest(old(buf[..]), ip) ==>
      buf[..] == ArpReply(old(buf[..]), mac, ip) && sent == Some(ETH_HLEN + ARP_HLEN)
    ensures !IsArpRequest(old(buf[..]), ip) ==> buf[..] == old(buf[..]) && sent == None
  {
    hide Splice, Be16;
    sent := None;
    if Word(buf[ARP], buf[ARP + 1]) != 1 {
      return;
    }
    if Word(buf[ARP + 2], buf[ARP + 3]) != ETH_P_IP {
      return;
    }
    if buf[ARP + 4] != 6 {
      return;
    }
    if buf[ARP + 5] != 4 {
      return;
    }
    if Word(buf[ARP + 6], buf[ARP + 7]) != 1 {
      return;
    }
    assert buf[ARP + 24..ARP + 28] == buf[..][ARP + 24..ARP + 28];
    if buf[ARP + 24..ARP + 28] != ip {
      return;
    }
    assert buf[6..12] == buf[..][6..12];
    MemCpy(buf, 0, buf[6..12]);
    MemCpy(buf, 6, mac);
    MemCpy(buf, ARP + 6, Be16(2));
    ghost var op := buf[..];
    assert buf[ARP + 14..ARP + 18] == op[ARP + 14..ARP + 18];
    MemCpy(buf, ARP + 24, buf[ARP + 14..ARP + 18]);
    assert buf[ARP + 8..ARP + 14] == buf[..][ARP + 8..ARP + 14] == op[ARP + 8..ARP + 14];
    MemCpy(buf, ARP + 18, buf[ARP + 8..ARP + 14]);
    MemCpy(buf, ARP + 14, ip);
    MemCpy(buf, ARP + 8, mac);
    sent := Some(ETH_HLEN + ARP_HLEN);
  }

  /** The answer tells the asker, at its own addresses, which hardware address has `ip`. */
  lemma ArpReplyAnswers(p: seq<uint8>, mac: Mac, ip: Ip4)
    requires ETH_HLEN + ARP_HLEN <= |p| && IsArpRequest(p, ip)
    ensures var r := ArpReply(p, mac, ip);
      && r[0..6] == p[6..12] && r[6..12] == mac && Field(r, ARP + 6) == 2
      && r[ARP + 8..ARP + 14] == mac && r[ARP + 14..ARP + 18] == ip
      && r[ARP + 18..ARP + 24] == p[ARP + 8..ARP + 14] && r[ARP + 24..ARP + 28] == p[ARP + 14..ARP + 18]
      && r[ETH_HLEN..ARP + 6] == p[ETH_HLEN..ARP + 6] && r[12..14] == p[12..14]
  {
    hide Splice;
    var op := Splice(Splice(Splice(p, 0, p[6..12]), 6, mac), ARP + 6, Be16(2));
    assert op[ARP + 14..ARP + 18] == p[ARP + 14..ARP + 18] && op[ARP + 8..ARP + 14] == p[ARP + 8..ARP + 14];
    assert ArpReply(p, mac, ip)[ARP + 18..ARP + 24] == op[ARP + 8..ARP + 14];
    assert ArpReply(p, mac, ip)[ARP + 24..ARP + 28] == op[ARP + 14..ARP + 18];
  }

  // ----- IPv4 -----

  /** The header before its checksum is stored; the type of service and the identification are not
      written by the builder. */
  function IpFields(tos: uint8, id: uint16, totLen: uint16, protocol: uint8, src: Ip4, dst: Ip4): (r: seq<uint8>)
    ensures |r| == IP_HLEN && r[10] == r[11] == 0
  {
    [0x45, tos] + Be16(totLen) + Be16(id) + [0x40, 0, IPDEFTTL, protocol, 0, 0] + src + dst
  }

  function IpHeader(tos: uint8, id: uint16, totLen: uint16, protocol: uint8, src: Ip4, dst: Ip4): (r: seq<uint8>)
    ensures |r| == IP_HLEN
  {
    var f := IpFields(tos, id, totLen, protocol, src, dst);
    Splice(f, 10, Be16(CodeChecksum(f, 0, AVR)))
  }

  method BuildIp(buf: array<uint8>, h: nat, dst: Option<Ip4>, src: Ip4, protocol: uint8, len: uint16)
    requires h + IP_HLEN <= buf.Length
    modifies buf
    ensures buf[..] == Splice(old(buf[..]), h,
      IpHeader(old(buf[h + 1]), Word(old(buf[h + 4]), old(buf[h + 5])), (IP_HLEN + len) % 0x1_0000,
               protocol, src, if dst.Some? then dst.value else Ones(4)))
  {
    hide Splice, IpFields, IpWritten, Be16, Word, CodeChecksum;
    ghost var s, tot := buf[..], (IP_HLEN + len) % 0x1_0000;
    var d: Ip4 := if dst.Some? then dst.value else Ones(4);
    StoreIpFields(buf, h, d, src, protocol, len);
    IpWrittenIsFields(s, h, tot, protocol, src, d);
    ghost var f := IpFields(s[h + 1], Word(s[h + 4], s[h + 5]), tot, protocol, src, d);
    assert buf[h..h + IP_HLEN] == buf[..][h..h + IP_HLEN] == f;
    var c := Checksum.Checksum(buf, h, IP_HLEN, 0, AVR);
    MemCpy(buf, h + 10, Be16(c));
    SpliceInside(s, h, f, 10, Be16(c));
  }

  /** The stores of `build_ip` up to the checksum, in the order of the code. */
  method StoreIpFields(buf: array<uint8>, h: nat, dst: Ip4, src: Ip4, protocol: uint8, len: uint16)
    requires h + IP_HLEN <= buf.Length
    modifies buf
    ensures buf[..] == IpWritten(old(buf[..]), h, (IP_HLEN + len) % 0x1_0000, protocol, src, dst)
  {
    hide Splice, Be16, WithVersion, WithIhl;
    Poke(buf, h, WithVersion(buf[h], 4));
    Poke(buf, h, WithIhl(buf[h], IP_HLEN / 4));
    MemCpy(buf, h + 6, [0x40, 0]);
    Poke(buf, h + 8, IPDEFTTL);
    MemCpy(buf, h + 10, [0, 0]);
    MemCpy(buf, h + 2, Be16((IP_HLEN + len) % 0x1_0000));
    Poke(buf, h + 9, protocol);
    MemCpy(buf, h + 16, dst);
    MemCpy(buf, h + 12, src);
  }

  /** The bit-fields `version` and `ihl` of the first byte. */
  function WithVersion(b: uint8, version: nat): uint8
    requires version < 16
  {
    version * 16 + b % 16
  }

  function WithIhl(b: uint8, ihl: nat): uint8
    requires ihl < 16
  {
    b / 16 * 16 + ihl
  }

  /** The buffer after the header fields have been stored in the order of the code. */
  function IpWritten(s: seq<uint8>, h: nat, tot: uint16, protocol: uint8, src: Ip4, dst: Ip4): (r: seq<uint8>)
    requires h + IP_HLEN <= |s|
    ensures |r| == |s|
  {
    var s1 := s[h := WithVersion(s[h], 4)];
    var s2 := s1[h := WithIhl(s1[h], IP_HLEN / 4)];
    var s3 := Splice(Splice(s2, h + 6, [0x40, 0])[h + 8 := IPDEFTTL], h + 10, [0, 0]);
    Splice(Splice(Splice(s3, h + 2, Be16(tot))[h + 9 := protocol], h + 16, dst), h + 12, src)
  }

  lemma IpWrittenIsFields(s: seq<uint8>, h: nat, tot: uint16, protocol: uint8, src: Ip4, dst: Ip4)
    requires h + IP_HLEN <= |s|
    ensures var f := IpFields(s[h + 1], Word(s[h + 4], s[h + 5]), tot, protocol, src, dst);
            var t := IpWritten(s, h, tot, protocol, src, dst);
            t == Splice(s, h, f) && t[h..h + IP_HLEN] == f
  {
    hide Splice;
    var f := IpFields(s[h + 1], Word(s[h + 4], s[h + 5]), tot, protocol, src, dst);
    var t := IpWritten(s, h, tot, protocol, src, dst);
    assert t[h..h + IP_HLEN] == f;
    SpliceWindow(s, t, h, IP_HLEN);
  }

  /** What `get_ipproto` accepts for the address `ip`, on the 20 bytes of a header. */
  function AcceptedProtocol(hdr: seq<uint8>, ip: Ip4): Option<uint8>
    requires |hdr| == IP_HLEN
  {
    if hdr[0] == 0x45 && Verifies(hdr) && hdr[16..20] == ip then Some(hdr[9]) else None
  }

  /** Returns 255 for a header that is not accepted. */
  method GetIpProto(buf: array<uint8>, h: nat, ip: Ip4) returns (r: uint8)
    requires h + IP_HLEN <= buf.Length
    ensures r == match AcceptedProtocol(buf[h..h + IP_HLEN], ip) case Some(protocol) => protocol case None => 255
  {
    hide WordSum, OnesSum, CodeChecksum;
    ghost var hdr := buf[h..h + IP_HLEN];
    if buf[h] / 16 != 4 {
      return 255;
    }
    if buf[h] % 16 != IP_HLEN / 4 {
      return 255;
    }
    assert buf[h] == hdr[0] == 0x45;
    var c := Checksum.Checksum(buf, h, IP_HLEN, 0, AVR);
    EvenChecksum(hdr);
    if c != 0 {
      return 255;
    }
    assert buf[h + 16..h + 20] == hdr[16..20];
    if buf[h + 16..h + 20] != ip {
      return 255;
    }
    r := buf[h + 9];
  }

  /** On an even number of bytes the code's checksum is zero exactly when the data verify. */
  lemma EvenChecksum(s: seq<uint8>)
    requires |s| % 2 == 0
    ensures CodeSum(s, 0, AVR) == WordSum(s)
    ensures CodeChecksum(s, 0, AVR) == 0 <==> Verifies(s)
  {
    OnesSumIsFold(s);
  }

  lemma IpFieldsSum(tos: uint8, id: uint16, tot: uint16, protocol: uint8, src: Ip4, dst: Ip4)
    ensures WordSum(IpFields(tos, id, tot, protocol, src, dst)) > 0
  {
    hide WordSum;
    var f := IpFields(tos, id, tot, protocol, src, dst);
    WordSumAt(f, 0);
    assert f[0] == 0x45;
  }

  /** Every header the builder makes, whatever type of service and identification were left in the
      buffer, is accepted for its destination and yields its protocol. */
  lemma BuiltHeaderAccepted(tos: uint8, id: uint16, tot: uint16, protocol: uint8, src: Ip4, dst: Ip4)
    ensures var hdr := IpHeader(tos, id, tot, protocol, src, dst);
            Verifies(hdr) && AcceptedProtocol(hdr, dst) == Some(protocol)
    ensures var hdr := IpHeader(tos, id, tot, protocol, src, dst);
            hdr[12..16] == src && hdr[16..20] == dst && Field(hdr, 2) == tot
  {
    hide Splice, WordSum, OnesSum, Fold, IpFields, Be16, CodeSum;
    var f := IpFields(tos, id, tot, protocol, src, dst);
    IpFieldsSum(tos, id, tot, protocol, src, dst);
    EvenChecksum(f);
    StoredVerifies(f, 10, WordSum(f));
    IpFieldsBytes(tos, id, tot, protocol, src, dst);
    var hdr := IpHeader(tos, id, tot, protocol, src, dst);
    assert hdr[16..20] == f[16..20] && hdr[12..16] == f[12..16];
    assert hdr[2..4] == f[2..4];
    assert hdr[2] == hdr[2..4][0] && hdr[3] == hdr[2..4][1];
  }

  lemma IpFieldsBytes(tos: uint8, id: uint16, tot: uint16, protocol: uint8, src: Ip4, dst: Ip4)
    ensures var f := IpFields(tos, id, tot, protocol, src, dst);
      && f[0] == 0x45 && f[1] == tos && f[2..4] == Be16(tot) && f[4..6] == Be16(id) && f[6] == 0x40 && f[7] == 0
      && f[8] == IPDEFTTL && f[9] == protocol && f[12..16] == src && f[16..20] == dst
  {}

  /** An accepted header in which one byte is changed is no longer accepted, for any address. */
  lemma DamagedHeaderRejected(hdr: seq<uint8>, ip: Ip4, k: nat, b: uint8, other: Ip4)
    requires |hdr| == IP_HLEN && AcceptedProtocol(hdr, ip).Some?
    requires k < IP_HLEN && b != hdr[k]
    ensures AcceptedProtocol(hdr[k := b], other).None?
  {
    OneByteIsDetected(hdr, k, b);
  }

  /** Exchanging the addresses keeps a verifying header verifying, and accepted by its old source. */
  lemma SwapKeepsHeader(hdr: seq<uint8>)
    requires |hdr| == IP_HLEN
    ensures Verifies(Swapped(hdr, 12, 16, 4)) <==> Verifies(hdr)
    ensures AcceptedProtocol(hdr, hdr[16..20]).Some? ==>
      AcceptedProtocol(Swapped(hdr, 12, 16, 4), hdr[12..16]) == AcceptedProtocol(hdr, hdr[16..20])
  {
    hide WordSum, OnesSum, Swapped;
    var r := Swapped(hdr, 12, 16, 4);
    assert hdr == hdr[..12] + hdr[12..16] + hdr[16..20];
    assert r == hdr[..12] + hdr[16..20] + hdr[12..16];
    WordSumConcat(hdr[..12], hdr[12..16]);
    WordSumConcat(hdr[..12] + hdr[12..16], hdr[16..20]);
    WordSumConcat(hdr[..12], hdr[16..20]);
    WordSumConcat(hdr[..12] + hdr[16..20], hdr[12..16]);
    OnesSumIsFold(hdr);
    OnesSumIsFold(r);
  }

  // ----- ICMP -----

  const IP := ETH_HLEN
  const ICMP := ETH_HLEN + IP_HLEN

  /** The total length in the IP header is that of a complete echo message in the buffer. */
  predicate EchoFits(p: seq<uint8>) {
    ICMP + 8 <= |p| && 28 <= Field(p, IP + 2) && IP + Field(p, IP + 2) <= |p|
  }

  /** The answer that `process_icmp` leaves in the buffer, in the order of its stores. */
  function EchoReply(p: seq<uint8>, width: IntWidth): (r: seq<uint8>)
    requires EchoFits(p)
    ensures |r| == |p|
  {
    var q := EchoHeaders(p);
    EchoMessage(q, Field(p, IP + 2), width)
  }

  /** Addresses exchanged, time to live renewed, header checksum computed. */
  function EchoHeaders(p: seq<uint8>): (r: seq<uint8>)
    requires ICMP <= |p|
    ensures |r| == |p|
  {
    var q := Swapped(Swapped(p, 0, ETH_ALEN, ETH_ALEN), IP + 12, IP + 16, 4);
    var z := Splice(q[IP + 8 := IPDEFTTL], IP + 10, [0, 0]);
    Splice(z, IP + 10, Be16(CodeChecksum(z[IP..ICMP], 0, AVR)))
  }

  /** Type and checksum of the message, which ends `tot` bytes after the start of the IP header. */
  function EchoMessage(q: seq<uint8>, tot: nat, width: IntWidth): (r: seq<uint8>)
    requires 28 <= tot && IP + tot <= |q|
    ensures |r| == |q|
  {
    var z := Splice(q[ICMP := ICMP_ECHOREPLY], ICMP + 2, [0, 0]);
    Splice(z, ICMP + 2, Be16(CodeChecksum(z[ICMP..IP + tot], 0, width)))
  }

  /** `process_icmp`; returns the length of the packet sent, None if there is none. */
  method ProcessIcmp(buf: array<uint8>, width: IntWidth) returns (sent: Option<nat>)
    requires ICMP + 8 <= buf.Length
    requires buf[ICMP] == ICMP_ECHO ==> EchoFits(buf[..])
    modifies buf
    ensures old(buf[ICMP]) != ICMP_ECHO ==> sent == None && buf[..] == old(buf[..])
    ensures old(buf[ICMP]) == ICMP_ECHO ==>
      && buf[..] == EchoReply(old(buf[..]), width)
      && sent == Some(ETH_HLEN + Word(old(buf[IP + 2]), old(buf[IP + 3])))
  {
    hide Splice, Swapped, EchoMessage, CodeChecksum, Word, Be16;
    ghost var p := buf[..];
    if buf[ICMP] != ICMP_ECHO {
      return None;
    }
    EchoStoreHeaders(buf);
    assert Word(buf[..][IP + 2], buf[..][IP + 3]) == Word(p[IP + 2], p[IP + 3]);
    EchoStoreMessage(buf, Word(buf[IP + 2], buf[IP + 3]), width);
    assert Word(buf[..][IP + 2], buf[..][IP + 3]) == Word(p[IP + 2], p[IP + 3]) by {
      EchoMessageKeeps(EchoHeaders(p), Word(p[IP + 2], p[IP + 3]), width);
    }
    sent := Some(ETH_HLEN + Word(buf[IP + 2], buf[IP + 3]));
  }

  lemma EchoMessageKeeps(q: seq<uint8>, tot: nat, width: IntWidth)
    requires 28 <= tot && IP + tot <= |q|
    ensures EchoMessage(q, tot, width)[..ICMP] == q[..ICMP]
  {}

  method EchoStoreHeaders(buf: array<uint8>)
    requires ICMP <= buf.Length
    modifies buf
    ensures buf[..] == EchoHeaders(old(buf[..]))
    ensures buf[IP + 2] == old(buf[IP + 2]) && buf[IP + 3] == old(buf[IP + 3])
  {
    hide Splice, Swapped, CodeChecksum, Be16;
    SwapFields(buf, 0, ETH_ALEN, ETH_ALEN);
    SwapFields(buf, IP + 12, IP + 16, 4);
    Poke(buf, IP + 8, IPDEFTTL);
    MemCpy(buf, IP + 10, [0, 0]);
    assert buf[IP..ICMP] == buf[..][IP..ICMP];
    var c := Checksum.Checksum(buf, IP, IP_HLEN, 0, AVR);
    MemCpy(buf, IP + 10, Be16(c));
  }

  method EchoStoreMessage(buf: array<uint8>, tot: uint16, width: IntWidth)
    requires 28 <= tot && IP + tot <= buf.Length
    modifies buf
    ensures buf[..] == EchoMessage(old(buf[..]), tot, width)
  {
    hide Splice, CodeChecksum, Be16;
    Poke(buf, ICMP, ICMP_ECHOREPLY);
    MemCpy(buf, ICMP + 2, [0, 0]);
    assert buf[ICMP..IP + tot] == buf[..][ICMP..IP + tot];
    var c := Checksum.Checksum(buf, ICMP, tot - IP_HLEN, 0, width);
    MemCpy(buf, ICMP + 2, Be16(c));
  }

  /** The message the reply's checksum is computed over. */
  function ReplyMessage(p: seq<uint8>): seq<uint8>
    requires EchoFits(p)
  {
    [ICMP_ECHOREPLY, p[ICMP + 1], 0, 0] + p[ICMP + 4..IP + Field(p, IP + 2)]
  }

  /** The reply answers the request: addresses exchanged, code, identifier, sequence number and data
      identical, nothing written outside the two headers. */
  lemma EchoReplyAnswers(p: seq<uint8>, width: IntWidth)
    requires EchoFits(p)
    ensures var r := EchoReply(p, width);
      && r[0..6] == p[6..12] && r[6..12] == p[0..6]
      && r[IP + 12..IP + 16] == p[IP + 16..IP + 20] && r[IP + 16..IP + 20] == p[IP + 12..IP + 16]
      && r[IP + 8] == IPDEFTTL && r[ICMP] == ICMP_ECHOREPLY && r[ICMP + 1] == p[ICMP + 1]
      && r[ICMP + 4..] == p[ICMP + 4..]
      && r[12..IP + 8] == p[12..IP + 8] && r[IP + 9] == p[IP + 9]
  {
    hide Splice, CodeChecksum, Be16;
    var r := EchoReply(p, width);
    assert r[12..IP + 8] == p[12..IP + 8];
    assert r[ICMP + 4..] == p[ICMP + 4..];
    var s := Swapped(p, 0, ETH_ALEN, ETH_ALEN);
    assert r[0..6] == s[0..6] && r[6..12] == s[6..12];
    var t := Swapped(s, IP + 12, IP + 16, 4);
    assert r[IP + 12..IP + 16] == t[IP + 12..IP + 16] && r[IP + 16..IP + 20] == t[IP + 16..IP + 20];
    assert s[IP + 12..IP + 16] == p[IP + 12..IP + 16] && s[IP + 16..IP + 20] == p[IP + 16..IP + 20];
  }

  /** The header checksum of the reply always verifies; that of the message does, for even and odd
      lengths alike, exactly when the sign of the last byte does not reach the sum. */
  lemma EchoReplyVerifies(p: seq<uint8>, width: IntWidth)
    requires EchoFits(p)
    ensures var r := EchoReply(p, width);
      && Verifies(r[IP..ICMP])
      && (Verifies(r[ICMP..IP + Field(p, IP + 2)]) <==> !SignReachesSum(ReplyMessage(p), 0, width))
  {
    hide EchoHeaders, EchoMessage, Verifies, SignReachesSum, Splice;
    EchoHeadersVerify(p);
    var q, tot := EchoHeaders(p), Field(p, IP + 2);
    EchoMessageKeeps(q, tot, width);
    assert EchoReply(p, width)[IP..ICMP] == EchoReply(p, width)[..ICMP][IP..] == q[..ICMP][IP..] == q[IP..ICMP];
    EchoMessageVerifies(q, tot, width);
    assert ReplyMessage(p) == [ICMP_ECHOREPLY, q[ICMP + 1], 0, 0] + q[ICMP + 4..IP + tot];
  }

  lemma EchoHeadersVerify(p: seq<uint8>)
    requires ICMP <= |p|
    ensures Verifies(EchoHeaders(p)[IP..ICMP])
    ensures EchoHeaders(p)[ICMP..] == p[ICMP..]
  {
    hide WordSum, OnesSum, Fold, CodeSum, Splice, Swapped, Verifies, Be16;
    var q := Swapped(Swapped(p, 0, ETH_ALEN, ETH_ALEN), IP + 12, IP + 16, 4);
    var z := Splice(q[IP + 8 := IPDEFTTL], IP + 10, [0, 0]);
    var hdr := z[IP..ICMP];
    EvenChecksum(hdr);
    StoredVerifies(hdr, 10, WordSum(hdr));
    var c := Be16(CodeChecksum(hdr, 0, AVR));
    assert EchoHeaders(p)[IP..ICMP] == Splice(hdr, 10, c);
    assert EchoHeaders(p)[ICMP..] == p[ICMP..];
  }

  lemma EchoMessageVerifies(q: seq<uint8>, tot: uint16, width: IntWidth)
    requires 28 <= tot && IP + tot <= |q|
    ensures var m := [ICMP_ECHOREPLY, q[ICMP + 1], 0, 0] + q[ICMP + 4..IP + tot];
      Verifies(EchoMessage(q, tot, width)[ICMP..IP + tot]) <==> !SignReachesSum(m, 0, width)
  {
    hide WordSum, OnesSum, Fold, CodeSum, Splice, SignReachesSum, Verifies, Be16;
    var z := Splice(q[ICMP := ICMP_ECHOREPLY], ICMP + 2, [0, 0]);
    var m := z[ICMP..IP + tot];
    assert m == [ICMP_ECHOREPLY, q[ICMP + 1], 0, 0] + q[ICMP + 4..IP + tot];
    CodeSumResidue(m, 0, width);
    CodeSumCongruent(m, 0, width);
    if WordSum(m) == 0 {
      ZeroSum(m, width);
    }
    StoredVerifies(m, 2, CodeSum(m, 0, width));
    var c := Be16(CodeChecksum(m, 0, width));
    SpliceSlice(z, ICMP + 2, c, ICMP, IP + tot);
    assert EchoMessage(q, tot, width)[ICMP..IP + tot] == Splice(m, 2, c);
  }

  /** A message whose true sum is zero has a zero sum in the code too. */
  lemma ZeroSum(s: seq<uint8>, width: IntWidth)
    requires |s| < 0x1_0000 && WordSum(s) == 0
    ensures CodeSum(s, 0, width) == 0
  {
    CodeSumResidue(s, 0, width);
    if |s| % 2 == 1 {
      WordSumLast(s);
    }
  }

  /** A ping of one data byte: 43 bytes. */
  function OddPing(mac: Mac, from: Mac, ip: Ip4, src: Ip4): (p: seq<uint8>)
    ensures |p| == ICMP + 9
  {
    EthernetHeader(mac, from, ETH_P_IP) + IpHeader(0, 0, 29, IPPROTO_ICMP, src, ip)
    + [ICMP_ECHO, 0, 0xF7, 0xFD, 0x80, 0, 0, 1, 0x80]
  }

  /** It is a complete echo request that is accepted and whose own checksum verifies, and the checksum of
      its reply does not. */
  lemma OddPingCounterexample(mac: Mac, from: Mac, ip: Ip4, src: Ip4)
    ensures var p := OddPing(mac, from, ip, src);
      && Field(p, 12) == ETH_P_IP && AcceptedProtocol(p[IP..ICMP], ip) == Some(IPPROTO_ICMP)
      && p[ICMP] == ICMP_ECHO && EchoFits(p) && Verifies(p[ICMP..])
      && !Verifies(EchoReply(p, AVR)[ICMP..IP + Field(p, IP + 2)])
  {
    hide EthernetHeader, IpHeader, AcceptedProtocol, EchoReply, Verifies;
    var p := OddPing(mac, from, ip, src);
    var eth, hdr := EthernetHeader(mac, from, ETH_P_IP), IpHeader(0, 0, 29, IPPROTO_ICMP, src, ip);
    var m: seq<uint8> := [ICMP_ECHO, 0, 0xF7, 0xFD, 0x80, 0, 0, 1, 0x80];
    OddParts(eth, hdr, m);
    EthernetType(mac, from);
    BuiltHeaderAccepted(0, 0, 29, IPPROTO_ICMP, src, ip);
    assert p[IP + 2] == hdr[2] && p[IP + 3] == hdr[3];
    OddMessages();
    EchoReplyVerifies(p, AVR);
    assert ReplyMessage(p) == [ICMP_ECHOREPLY, 0, 0, 0] + m[4..];
    assert [ICMP_ECHOREPLY, 0, 0, 0] + m[4..] == [ICMP_ECHOREPLY, 0, 0, 0, 0x80, 0, 0, 1, 0x80];
  }

  lemma OddParts(eth: seq<uint8>, hdr: seq<uint8>, m: seq<uint8>)
    requires |eth| == ETH_HLEN && |hdr| == IP_HLEN && |m| == 9
    ensures var p := eth + hdr + m;
      && p[IP..ICMP] == hdr && p[ICMP..] == m && p[ICMP + 4..IP + 29] == m[4..]
      && p[12] == eth[12] && p[13] == eth[13] && p[ICMP] == m[0] && p[ICMP + 1] == m[1]
  {}

  lemma EthernetType(mac: Mac, from: Mac)
    ensures var e := EthernetHeader(mac, from, ETH_P_IP); Word(e[12], e[13]) == ETH_P_IP
  {}

  /** The request's message verifies; in the reply's the sign reaches the sum. */
  lemma OddMessages()
    ensures Verifies([ICMP_ECHO, 0, 0xF7, 0xFD, 0x80, 0, 0, 1, 0x80])
    ensures SignReachesSum([ICMP_ECHOREPLY, 0, 0, 0, 0x80, 0, 0, 1, 0x80], 0, AVR)
  {
    hide OnesSum, Fold;
    var r: seq<uint8> := [ICMP_ECHOREPLY, 0, 0, 0, 0x80, 0, 0, 1, 0x80];
    var q: seq<uint8> := [ICMP_ECHO, 0, 0xF7, 0xFD, 0x80, 0, 0, 1, 0x80];
    var r1: seq<uint8>, q1: seq<uint8> := [0, 0, 0x80, 0, 0, 1, 0x80], [0xF7, 0xFD, 0x80, 0, 0, 1, 0x80];
    var t: seq<uint8>, u: seq<uint8>, v: seq<uint8> := [0x80, 0, 0, 1, 0x80], [0, 1, 0x80], [0x80];
    assert u[2..] == v && WordSum(u) == 0x8001;
    assert t[2..] == u && WordSum(t) == 0x1_0001;
    assert r1[2..] == t && WordSum(r1) == 0x1_0001;
    assert q1[2..] == t && WordSum(q1) == 0x1_F7FE;
    assert r[2..] == r1 && WordSum(r) == 0x1_0001;
    assert q[2..] == q1 && WordSum(q) == 0x1_FFFE;
    OnesSumIsFold(q);
    FoldAllOnes(WordSum(q));
  }

  // ----- UDP -----

  function UdpHeader(dst: uint16, src: uint16, len: uint16): (r: seq<uint8>)
    ensures |r| == UDP_HLEN
  {
    Be16(src) + Be16(dst) + Be16((UDP_HLEN + len) % 0x1_0000) + [0, 0]
  }

  lemma UdpHeaderFields(dst: uint16, src: uint16, len: uint16)
    requires UDP_HLEN + len < 0x1_0000
    ensures var u := UdpHeader(dst, src, len);
      Field(u, 0) == src && Field(u, 2) == dst && Field(u, 4) == UDP_HLEN + len && Field(u, 6) == 0
  {}

  lemma UdpHeaderNoSum(dst: uint16, src: uint16, len: uint16)
    ensures var u := UdpHeader(dst, src, len); u[6] == u[7] == 0
  {}

  method BuildUdp(buf: array<uint8>, h: nat, dst: uint16, src: uint16, len: uint16)
    requires h + UDP_HLEN <= buf.Length
    modifies buf
    ensures buf[..] == Splice(old(buf[..]), h, UdpHeader(dst, src, len))
  {
    hide Splice, Be16;
    ghost var s := buf[..];
    MemCpy(buf, h, Be16(src));
    MemCpy(buf, h + 2, Be16(dst));
    MemCpy(buf, h + 4, Be16((UDP_HLEN + len) % 0x1_0000));
    MemCpy(buf, h + 6, [0, 0]);
    SpliceAdjacent(s, h, Be16(src), Be16(dst));
    SpliceAdjacent(s, h, Be16(src) + Be16(dst), Be16((UDP_HLEN + len) % 0x1_0000));
    SpliceAdjacent(s, h, Be16(src) + Be16(dst) + Be16((UDP_HLEN + len) % 0x1_0000), [0, 0]);
  }

  // ----- IPv6 -----

  /** The first byte's low nibble and the flow label are not written by the builder. */
  function Ip6Header(s: seq<uint8>, h: nat, dst: Ip6, src: Ip6, protocol: uint8, len: uint16): (r: seq<uint8>)
    requires h + IPV6_HLEN <= |s|
    ensures |r| == IPV6_HLEN
  {
    [WithVersion(s[h], 6)] + s[h + 1..h + 4] + Be16(len) + [protocol, IPDEFTTL] + src + dst
  }

  method BuildIpv6(buf: array<uint8>, h: nat, dst: Ip6, src: Ip6, protocol: uint8, len: uint16)
    requires h + IPV6_HLEN <= buf.Length
    modifies buf
    ensures buf[..] == Splice(old(buf[..]), h, Ip6Header(old(buf[..]), h, dst, src, protocol, len))
  {
    hide Splice, Be16, WithVersion;
    ghost var s := buf[..];
    Poke(buf, h, WithVersion(buf[h], 6));
    MemCpy(buf, h + 4, Be16(len));
    Poke(buf, h + 6, protocol);
    Poke(buf, h + 7, IPDEFTTL);
    MemCpy(buf, h + 24, dst);
    MemCpy(buf, h + 8, src);
    Ip6Written(s, h, dst, src, protocol, len);
  }

  lemma Ip6Written(s: seq<uint8>, h: nat, dst: Ip6, src: Ip6, protocol: uint8, len: uint16)
    requires h + IPV6_HLEN <= |s|
    ensures var t := Splice(s[h := WithVersion(s[h], 6)], h + 4, Be16(len))[h + 6 := protocol][h + 7 := IPDEFTTL];
      Splice(Splice(t, h + 24, dst), h + 8, src) == Splice(s, h, Ip6Header(s, h, dst, src, protocol, len))
  {
    hide Splice, Be16, WithVersion;
    var t := Splice(s[h := WithVersion(s[h], 6)], h + 4, Be16(len))[h + 6 := protocol][h + 7 := IPDEFTTL];
    var u := Splice(Splice(t, h + 24, dst), h + 8, src);
    assert u[h..h + IPV6_HLEN] == Ip6Header(s, h, dst, src, protocol, len);
    SpliceWindow(s, u, h, IPV6_HLEN);
  }

  /** The chunks that `build_udp_checksum_v6` feeds to the streaming checksum. */
  function Udp6Chunks(src: Ip6, dst: Ip6, udp: seq<uint8>): seq<seq<uint8>>
    requires |udp| < 0x1_0000
  {
    [src, dst, Be16(|udp|), Be16(IPPROTO_UDP as int), udp]
  }

  method BuildUdpChecksumV6(buf: array<uint8>, ip6: nat, udp: nat, len: uint16)
    requires ip6 + IPV6_HLEN <= udp && udp + UDP_HLEN + len <= buf.Length && UDP_HLEN + len < 0x1_0000
    modifies buf
    ensures var s := old(buf[..]);
      var chunks := Udp6Chunks(s[ip6 + 8..ip6 + 24], s[ip6 + 24..ip6 + 40], s[udp..udp + UDP_HLEN + len]);
      buf[..] == Splice(s, udp + 6, Be16(0xFFFF - Fold(StreamSum(0, chunks))))
  {
    hide Fold, StepSum, StreamSum, Splice, Be16;
    ghost var s := buf[..];
    var sum := new Streaming(0);
    var zero := new uint8[2];
    sum.Step(buf, ip6 + 8, 16);
    sum.Step(buf, ip6 + 24, 16);
    MemCpy(zero, 0, Be16(UDP_HLEN + len));
    assert zero[0..2] == Be16(UDP_HLEN + len);
    sum.Step(zero, 0, 2);
    MemCpy(zero, 0, Be16(IPPROTO_UDP));
    assert zero[0..2] == Be16(IPPROTO_UDP);
    sum.Step(zero, 0, 2);
    assert buf[..] == s;
    sum.Step(buf, udp, UDP_HLEN + len);
    StreamFive(s[ip6 + 8..ip6 + 24], s[ip6 + 24..ip6 + 40], Be16(UDP_HLEN + len), Be16(IPPROTO_UDP),
               s[udp..udp + UDP_HLEN + len]);
    var c := sum.End();
    MemCpy(buf, udp + 6, Be16(c));
  }

  lemma StreamFive(a: seq<uint8>, b: seq<uint8>, c: seq<uint8>, d: seq<uint8>, e: seq<uint8>)
    ensures StreamSum(0, [a, b, c, d, e]) == StepSum(StepSum(StepSum(StepSum(StepSum(0, a), b), c), d), e)
  {
    hide StreamSum, StepSum;
    var p1 := StepSum(0, a);
    var p2 := StepSum(p1, b);
    var p3 := StepSum(p2, c);
    var p4 := StepSum(p3, d);
    StreamCons(0, a, [b, c, d, e]);
    StreamCons(p1, b, [c, d, e]);
    StreamCons(p2, c, [d, e]);
    StreamCons(p3, d, [e]);
    StreamCons(p4, e, []);
    StreamNil(StepSum(p4, e));
    assert [a] + [b, c, d, e] == [a, b, c, d, e] && [b] + [c, d, e] == [b, c, d, e];
    assert [c] + [d, e] == [c, d, e] && [d] + [e] == [d, e] && [e] + [] == [e];
  }

  lemma StreamCons(p: uint32, chunk: seq<uint8>, rest: seq<seq<uint8>>)
    ensures StreamSum(p, [chunk] + rest) == StreamSum(StepSum(p, chunk), rest)
  {
    assert ([chunk] + rest)[1..] == rest;
  }

  lemma StreamNil(p: uint32)
    ensures StreamSum(p, []) == p
  {}

  /** The pseudo-header of section 8.1 of RFC 2460: addresses, 32-bit length, three zero bytes and the
      next header. */
  function PseudoHeader(src: Ip6, dst: Ip6, length: uint16, next: uint8): (r: seq<uint8>)
    ensures |r| == 40
  {
    src + dst + ([0, 0] + Be16(length)) + [0, 0, 0, next]
  }

  lemma WordSumFour(a: seq<uint8>, b: seq<uint8>, c: seq<uint8>, d: seq<uint8>)
    requires |a| % 2 == |b| % 2 == |c| % 2 == 0
    ensures WordSum(a + b + c + d) == WordSum(a) + WordSum(b) + WordSum(c) + WordSum(d)
  {
    hide WordSum;
    var ab := a + b;
    var abc := ab + c;
    assert |ab| % 2 == 0 && |abc| % 2 == 0;
    WordSumConcat(abc, d);
    WordSumConcat(ab, c);
    WordSumConcat(a, b);
  }

  /** The sum of the pseudo-header is that of the four chunks in front of the datagram. */
  lemma PseudoHeaderSum(src: Ip6, dst: Ip6, length: uint16)
    ensures WordSum(PseudoHeader(src, dst, length, IPPROTO_UDP)) ==
            WordSum(src + dst + Be16(length) + Be16(IPPROTO_UDP as int)) > 0
  {
    hide WordSum, Be16;
    WordSumFour(src, dst, [0, 0] + Be16(length), [0, 0, 0, IPPROTO_UDP]);
    WordSumFour(src, dst, Be16(length), Be16(IPPROTO_UDP as int));
    WordSumConcat([0, 0], Be16(length));
    SmallSums();
  }

  /** The plain sum of what a receiver adds up, and the sum the code has reached. */
  lemma Udp6Sums(src: Ip6, dst: Ip6, udp: seq<uint8>)
    requires |udp| < 0x1_0000
    ensures StreamSum(0, Udp6Chunks(src, dst, udp))
         == WordSum(PseudoHeader(src, dst, |udp|, IPPROTO_UDP)) + WordSum(Even(udp))
    ensures WordSum(PseudoHeader(src, dst, |udp|, IPPROTO_UDP)) > 0
  {
    hide WordSum, StepSum, StreamSum, Be16, Even, Flatten, PseudoHeader;
    var len, proto, e := Be16(|udp|), Be16(IPPROTO_UDP as int), Even(udp);
    StreamFive(src, dst, len, proto, udp);
    StreamFive(src, dst, len, proto, e);
    StepEven(StepSum(StepSum(StepSum(StepSum(0, src), dst), len), proto), udp);
    FlattenFive(src, dst, len, proto, e);
    WordSumConcat(src + dst + len + proto, e);
    PseudoHeaderSum(src, dst, |udp|);
    WordSumBound(src + dst + len + proto + e);
    StreamIsOneShot(0, [src, dst, len, proto, e]);
  }

  lemma SmallSums()
    ensures WordSum([0, 0]) == 0
    ensures WordSum(Be16(IPPROTO_UDP as int)) == 17 && WordSum([0, 0, 0, IPPROTO_UDP]) == 17
  {
    var s: seq<uint8> := [0, 0, 0, IPPROTO_UDP];
    assert s[2..] == [0, IPPROTO_UDP];
    assert Be16(IPPROTO_UDP as int) == [0, IPPROTO_UDP];
  }

  lemma StepEven(p: uint32, chunk: seq<uint8>)
    ensures StepSum(p, Even(chunk)) == StepSum(p, chunk)
  {
    assert Even(Even(chunk)) == Even(chunk);
  }

  lemma FlattenFive(a: seq<uint8>, b: seq<uint8>, c: seq<uint8>, d: seq<uint8>, e: seq<uint8>)
    ensures Flatten([a, b, c, d, e]) == a + b + c + d + e
  {
    assert [a, b, c, d, e][1..] == [b, c, d, e];
    assert [b, c, d, e][1..] == [c, d, e];
    assert Flatten([a, b, c, d, e]) == a + (b + Flatten([c, d, e]));
    assert [c, d, e][1..] == [d, e];
    assert [d, e][1..] == [e];
    assert Flatten([c, d, e]) == c + (d + Flatten([e]));
    assert [e][1..] == [];
    assert Flatten([e]) == e;
  }

  /** The checksum stored in a datagram whose checksum field was zero. */
  function Udp6Stored(src: Ip6, dst: Ip6, udp: seq<uint8>): (r: seq<uint8>)
    requires UDP_HLEN <= |udp| < 0x1_0000
    ensures |r| == |udp|
  {
    Splice(udp, 6, Be16(0xFFFF - Fold(StreamSum(0, Udp6Chunks(src, dst, udp)))))
  }

  /** A receiver's sum over pseudo-header, UDP header and payload is all ones exactly when the length
      is even or the last byte, which the streaming form skips, is zero. */
  lemma Udp6Verifies(src: Ip6, dst: Ip6, udp: seq<uint8>)
    requires UDP_HLEN <= |udp| < 0x1_0000 && udp[6] == udp[7] == 0
    ensures Verifies(PseudoHeader(src, dst, |udp|, IPPROTO_UDP) + Udp6Stored(src, dst, udp))
       <==> |udp| % 2 == 0 || udp[|udp| - 1] == 0
  {
    hide WordSum, Fold, StreamSum, PseudoHeader, Be16, Splice, Udp6Chunks, Verifies, StepSum;
    var head := PseudoHeader(src, dst, |udp|, IPPROTO_UDP);
    var x := StreamSum(0, Udp6Chunks(src, dst, udp));
    var c := Be16(0xFFFF - Fold(x));
    Udp6Sums(src, dst, udp);
    WordSumConcat(head, udp);
    StoredVerifies(head + udp, 46, x);
    assert Splice(head + udp, 46, c) == head + Splice(udp, 6, c);
    if |udp| % 2 == 1 {
      WordSumLast(udp);
      LastByteResidue(udp[|udp| - 1]);
    } else {
      assert Even(udp) == udp;
    }
  }

  lemma EvenWhole(s: seq<uint8>)
    requires |s| % 2 == 0
    ensures Even(s) == s
  {}

  lemma LastByteResidue(b: uint8)
    ensures Word(b, 0) % 0xFFFF == 0 <==> b == 0
  {}

  /** For an even length it is the checksum of section 8.1 of RFC 2460. */
  lemma Udp6IsRfc2460(src: Ip6, dst: Ip6, udp: seq<uint8>)
    requires |udp| < 0x1_0000 && |udp| % 2 == 0
    ensures 0xFFFF - Fold(StreamSum(0, Udp6Chunks(src, dst, udp)))
         == 0xFFFF - OnesSum(PseudoHeader(src, dst, |udp|, IPPROTO_UDP) + udp)
  {
    hide WordSum, Fold, StreamSum, PseudoHeader, Udp6Chunks, OnesSum, Even;
    var head := PseudoHeader(src, dst, |udp|, IPPROTO_UDP);
    Udp6Sums(src, dst, udp);
    WordSumConcat(head, udp);
    OnesSumIsFold(head + udp);
    EvenWhole(udp);
  }
}
