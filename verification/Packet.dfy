/** Building and checking the raw IP/UDP datagrams of packet.c.

    Datagram and IsRfcDatagram are written from RFC 791, RFC 768 and RFC 1071 in
    network byte order; the methods follow the little-endian code.
 */
module Packet {
  import opened Bytes
  import opened Checksum

  const IP_HEADER_SIZE := 20
  const HEADERS_SIZE := 28        // IP and UDP headers
  const DHCP_MSG_SIZE := 1260     // sizeof(struct dhcp_msg)
  const PACKET_SIZE := 1288       // sizeof(struct dhcp_packet)
  const IPPROTO_UDP: Byte := 17
  const PORT_BOOTP_SERVER: Word16 := 67
  const PORT_BOOTP_CLIENT: Word16 := 68

  // ---------- the wire format ----------

  function IpHeader(total: seq<Byte>, check: seq<Byte>, saddr: seq<Byte>, daddr: seq<Byte>): (h: seq<Byte>)
    requires |total| == |check| == 2 && |saddr| == |daddr| == 4
    ensures |h| == IP_HEADER_SIZE
    ensures h[2..4] == total && h[10..12] == check && h[12..16] == saddr && h[16..20] == daddr
  {
    [0x45, 0] + total + [0, 0, 0, 0, 64, IPPROTO_UDP] + check + saddr + daddr
  }

  function UdpHeader(sport: seq<Byte>, dport: seq<Byte>, len: seq<Byte>, check: seq<Byte>): (h: seq<Byte>)
    requires |sport| == |dport| == |len| == |check| == 2
    ensures |h| == 8
  {
    sport + dport + len + check
  }

  /** RFC 768: source, destination, zero, protocol, UDP length. */
  function PseudoHeader(saddr: seq<Byte>, daddr: seq<Byte>, len: seq<Byte>): (h: seq<Byte>)
    requires |saddr| == |daddr| == 4 && |len| == 2
    ensures |h| == 12
  {
    saddr + daddr + [0, IPPROTO_UDP] + len
  }

  /** RFC 1071: the complement of the one's complement sum, in network order. */
  function RfcCheck(b: seq<Byte>): (c: seq<Byte>)
    ensures |c| == 2
  {
    Be16(65535 - Canon(NetworkSum(b)))
  }

  function CheckedIpHeader(total: Word16, saddr: seq<Byte>, daddr: seq<Byte>): (h: seq<Byte>)
    requires |saddr| == |daddr| == 4
    ensures |h| == IP_HEADER_SIZE
  {
    IpHeader(Be16(total), RfcCheck(IpHeader(Be16(total), [0, 0], saddr, daddr)), saddr, daddr)
  }

  function CheckedUdpHeader(payload: seq<Byte>, saddr: seq<Byte>, daddr: seq<Byte>,
                            sport: Word16, dport: Word16): (h: seq<Byte>)
    requires |saddr| == |daddr| == 4 && |payload| <= 65507
    ensures |h| == 8
  {
    var s, d, len := Be16(sport), Be16(dport), Be16(8 + |payload|);
    UdpHeader(s, d, len, RfcCheck(PseudoHeader(saddr, daddr, len) + UdpHeader(s, d, len, [0, 0]) + payload))
  }

  function Datagram(payload: seq<Byte>, saddr: seq<Byte>, daddr: seq<Byte>,
                    sport: Word16, dport: Word16): (d: seq<Byte>)
    requires |saddr| == |daddr| == 4 && |payload| <= 65507
    ensures |d| == HEADERS_SIZE + |payload|
  {
    CheckedIpHeader(HEADERS_SIZE + |payload|, saddr, daddr)
    + CheckedUdpHeader(payload, saddr, daddr, sport, dport)
    + payload
  }

  // ---------- send_packet ----------

  method FillIpHeader(ip: array<Byte>, total: Word16, saddr: seq<Byte>, daddr: seq<Byte>)
    requires ip.Length == IP_HEADER_SIZE && |saddr| == |daddr| == 4
    modifies ip
    ensures ip[..] == IpHeader(Be16(total), [0, 0], saddr, daddr)
  {
    ip[0] := 0x45;
    ip[1] := 0;
    StoreBe16(ip, 2, total);
    StoreBytes(ip, 4, [0, 0, 0, 0]);
    ip[8] := 64;
    ip[9] := IPPROTO_UDP;
    StoreBytes(ip, 10, [0, 0]);
    StoreBytes(ip, 12, saddr);
    StoreBytes(ip, 16, daddr);
    assert ip[2..4] == Be16(total);
  }

  method BuildIpHeader(total: Word16, saddr: seq<Byte>, daddr: seq<Byte>) returns (ip: array<Byte>)
    requires |saddr| == |daddr| == 4
    ensures fresh(ip) && ip.Length == IP_HEADER_SIZE
    ensures ip[..] == CheckedIpHeader(total, saddr, daddr)
  {
    ip := new Byte[IP_HEADER_SIZE];
    FillIpHeader(ip, total, saddr, daddr);
    ghost var blank := ip[..];
    var sum := SumField(ip, 0, IP_HEADER_SIZE, [], 0);
    assert [] + ip[0..IP_HEADER_SIZE] == blank;
    StoredChecksum(blank);
    StoreLe16(ip, 10, FinishSum(sum));
    assert ip[10..12] == RfcCheck(blank);
    assert ip[..] == blank[..10] + RfcCheck(blank) + blank[12..];
  }

  method FillUdpHeader(udp: array<Byte>, sport: Word16, dport: Word16, len: Word16)
    requires udp.Length == 8
    modifies udp
    ensures udp[..] == UdpHeader(Be16(sport), Be16(dport), Be16(len), [0, 0])
  {
    StoreBe16(udp, 0, sport);
    StoreBe16(udp, 2, dport);
    StoreBe16(udp, 4, len);
    StoreBytes(udp, 6, [0, 0]);
    assert udp[0..2] == Be16(sport) && udp[2..4] == Be16(dport);
    assert udp[..] == udp[0..2] + udp[2..4] + udp[4..6] + udp[6..8];
  }

  /** The chain of checksum() calls over the pieces of the UDP pseudo packet. */
  method SumUdp(ip: array<Byte>, udp: array<Byte>, msg: array<Byte>, size: nat) returns (udpsum: Word32)
    requires ip.Length == IP_HEADER_SIZE && udp.Length == 8
    requires size <= msg.Length && size <= 65507
    ensures udpsum == Canon(WordSum(PseudoHeader(ip[12..16], ip[16..20], udp[4..6]) + udp[..] + msg[..size]))
  {
    ghost var s, d, len := ip[12..16], ip[16..20], udp[4..6];
    assert [] + s == s && udp[0..8] == udp[..];
    udpsum := SumField(ip, 12, 4, [], 0);
    udpsum := SumField(ip, 16, 4, s, udpsum);
    var temp := new Byte[2];
    StoreBe16(temp, 0, IPPROTO_UDP);
    udpsum := SumField(temp, 0, 2, s + d, udpsum);
    StoreBytes(temp, 0, udp[4..6]);
    udpsum := SumField(temp, 0, 2, s + d + [0, IPPROTO_UDP], udpsum);
    udpsum := SumField(udp, 0, 8, PseudoHeader(s, d, len), udpsum);
    udpsum := SumField(msg, 0, size, PseudoHeader(s, d, len) + udp[..], udpsum);
  }

  method BuildUdpHeader(ip: array<Byte>, msg: array<Byte>, size: nat, sport: Word16, dport: Word16)
    returns (udp: array<Byte>)
    requires ip.Length == IP_HEADER_SIZE && size <= msg.Length && size <= 65507
    ensures fresh(udp) && udp.Length == 8
    ensures udp[..] == CheckedUdpHeader(msg[..size], ip[12..16], ip[16..20], sport, dport)
  {
    udp := new Byte[8];
    FillUdpHeader(udp, sport, dport, 8 + size);
    ghost var blank := udp[..];
    assert udp[4..6] == blank[4..6] == Be16(8 + size);
    var udpsum := SumUdp(ip, udp, msg, size);
    StoredChecksum(PseudoHeader(ip[12..16], ip[16..20], udp[4..6]) + blank + msg[..size]);
    StoreLe16(udp, 6, FinishSum(udpsum));
    assert udp[..] == blank[..6] + udp[6..8];
  }

  /** One call of the chain: prefix is what the earlier calls have summed. */
  method SumField(a: array<Byte>, at: nat, count: nat, ghost prefix: seq<Byte>, sum: Word32) returns (r: Word32)
    requires at + count <= a.Length
    requires |prefix| % 2 == 0 && |prefix| + count <= 131072
    requires sum == Canon(WordSum(prefix))
    ensures r == Canon(WordSum(prefix + a[at..at + count]))
  {
    r := Checksum.Checksum(a, at, count, sum);
    ExtendSum(prefix, a[at..at + count], sum);
  }

  method SendPacket(msg: array<Byte>, size: nat, saddr: Word32, daddr: Word32, sport: Word32, dport: Word32)
    returns (frame: seq<Byte>)
    requires size <= msg.Length && size <= 65507
    ensures frame == Datagram(msg[..size], Le32(saddr), Le32(daddr), Low16(sport), Low16(dport))
  {
    var ip := BuildIpHeader(HEADERS_SIZE + size, Le32(saddr), Le32(daddr));
    assert ip[..][12..16] == ip[12..16] && ip[..][16..20] == ip[16..20];
    var udp := BuildUdpHeader(ip, msg, size, Low16(sport), Low16(dport));
    frame := ip[..] + udp[..] + msg[..size];
  }

  // ---------- receive_packet ----------

  /** OutOfBounds: the UDP length field asks memcpy for more than the message buffer
      holds (or for a negative size), which C leaves undefined. */
  datatype Received = Rejected | Accepted(payload: seq<Byte>) | OutOfBounds

  /** The packet with its IP header turned into the pseudo header, check field cleared. */
  function Scratch(p: seq<Byte>): (s: seq<Byte>)
    requires |p| == PACKET_SIZE
    ensures |s| == PACKET_SIZE
  {
    [0, 0] + p[24..26] + [0, 0, 0, 0, 0, IPPROTO_UDP, 0, 0] + p[12..26] + [0, 0] + p[28..]
  }

  predicate PassesFilter(p: seq<Byte>, nread: nat)
    requires |p| == PACKET_SIZE
  {
    && nread >= HEADERS_SIZE
    && p[0] / 16 == 4 && p[0] % 16 == IP_HEADER_SIZE / 4
    && nread >= FromBe16(p[2..4])
    && p[9] == IPPROTO_UDP
    && FromBe16(p[22..24]) == PORT_BOOTP_CLIENT
  }

  /** receive_packet on the first nread bytes of the packet buffer p. */
  function Receive(p: seq<Byte>, nread: nat): Received
    requires |p| == PACKET_SIZE && nread <= PACKET_SIZE
  {
    if !PassesFilter(p, nread) then Rejected
    else if FinishSum(Sum(p[..IP_HEADER_SIZE], 0)) != 0 then Rejected
    else if FromLe16(p[26..28]) != FinishSum(Sum(Scratch(p)[..FromBe16(p[2..4])], 0)) then Rejected
    else CopyOut(p)
  }

  function CopyOut(p: seq<Byte>): Received
    requires |p| == PACKET_SIZE
  {
    var size := FromBe16(p[24..26]) - 8;
    if 0 <= size <= DHCP_MSG_SIZE then Accepted(p[28..28 + size]) else OutOfBounds
  }

  method ClearHeader(packet: array<Byte>, saddr: seq<Byte>, daddr: seq<Byte>)
    requires packet.Length == PACKET_SIZE && |saddr| == |daddr| == 4
    modifies packet
    ensures forall i | 0 <= i < 12 :: packet[i] == if i == 9 then IPPROTO_UDP else 0
    ensures packet[12..20] == saddr + daddr
    ensures forall i | 20 <= i < PACKET_SIZE :: packet[i] == old(packet[i])
  {
    forall i | 0 <= i < IP_HEADER_SIZE {
      packet[i] := 0;
    }
    StoreBytes(packet, 12, saddr + daddr);
    packet[9] := IPPROTO_UDP;
  }

  lemma IsScratch(p: seq<Byte>, q: seq<Byte>)
    requires |p| == |q| == PACKET_SIZE
    requires q[0] == q[1] == 0 && q[2..4] == p[24..26]
    requires forall i | 4 <= i < 12 :: q[i] == if i == 9 then IPPROTO_UDP else 0
    requires q[12..20] == p[12..20] && q[26] == q[27] == 0
    requires forall i | 20 <= i < 26 || 28 <= i < PACKET_SIZE :: q[i] == p[i]
    ensures q == Scratch(p)
  {
    assert q[..2] == [0, 0] && q[4..12] == [0, 0, 0, 0, 0, IPPROTO_UDP, 0, 0];
    assert q[20..26] == p[20..26] && q[26..28] == [0, 0] && q[28..] == p[28..];
    Join(p, 12, 20, 26);
    assert q == q[..2] + q[2..4] + q[4..12] + (q[12..20] + q[20..26]) + q[26..28] + q[28..];
  }

  method BorrowHeader(packet: array<Byte>)
    requires packet.Length == PACKET_SIZE
    modifies packet
    ensures packet[..] == Scratch(old(packet[..]))
  {
    ghost var p := packet[..];
    var saddr, daddr := packet[12..16], packet[16..20];
    var len := packet[24..26];
    Join(p, 12, 16, 20);
    ClearHeader(packet, saddr, daddr);
    ghost var addrs := packet[12..20];
    StoreBytes(packet, 2, len);
    StoreBytes(packet, 26, [0, 0]);
    assert packet[12..20] == addrs && packet[2..4] == len;
    assert packet[26..28] == [0, 0] && packet[26] == packet[26..28][0] && packet[27] == packet[26..28][1];
    IsScratch(p, packet[..]);
  }

  lemma DataKept(p: seq<Byte>, q: seq<Byte>, size: nat)
    requires |p| == |q| == PACKET_SIZE && HEADERS_SIZE + size <= PACKET_SIZE
    requires forall i | HEADERS_SIZE <= i < PACKET_SIZE :: q[i] == Scratch(p)[i]
    ensures q[28..28 + size] == p[28..28 + size]
  {
    assert forall i | HEADERS_SIZE <= i < PACKET_SIZE :: Scratch(p)[i] == p[i];
  }

  /** r is the size of the message copied to msg, or -1; packet holds what read()
      stored in its first nread bytes. */
  method ReceivePacket(packet: array<Byte>, nread: nat, msg: array<Byte>) returns (r: int, inBounds: bool)
    requires packet.Length == PACKET_SIZE && nread <= PACKET_SIZE
    requires msg.Length == DHCP_MSG_SIZE && msg != packet
    modifies packet, msg
    ensures !inBounds <==> Receive(old(packet[..]), nread) == OutOfBounds
    ensures inBounds ==> (r == -1 <==> Receive(old(packet[..]), nread) == Rejected)
    ensures r != -1 && inBounds ==>
              0 <= r <= DHCP_MSG_SIZE && Receive(old(packet[..]), nread) == Accepted(msg[..r])
    ensures inBounds && r >= 0 ==> forall i | r <= i < DHCP_MSG_SIZE :: msg[i] == old(msg[i])
    ensures !inBounds || r < 0 ==> msg[..] == old(msg[..])
  {
    inBounds := true;
    ghost var p := packet[..];
    if nread < HEADERS_SIZE
       || packet[0] / 16 != 4 || packet[0] % 16 != IP_HEADER_SIZE / 4
       || nread < FromBe16(packet[2..4])
       || packet[9] != IPPROTO_UDP
       || FromBe16(packet[22..24]) != PORT_BOOTP_CLIENT {
      return -1, true;
    }
    var sum := Checksum.Checksum(packet, 0, IP_HEADER_SIZE, 0);
    assert packet[0..IP_HEADER_SIZE] == p[..IP_HEADER_SIZE];
    sum := FinishSum(sum);
    if sum != 0 {
      return -1, true;
    }
    var dhcpSize := FromBe16(packet[24..26]) as int - 8;
    var total := FromBe16(packet[2..4]);
    var temp := FromLe16(packet[26..28]);
    BorrowHeader(packet);
    sum := Checksum.Checksum(packet, 0, total, 0);
    assert packet[0..total] == Scratch(p)[..total];
    sum := FinishSum(sum);
    StoreLe16(packet, 26, temp);
    if temp != sum {
      return -1, true;
    }
    if !(0 <= dhcpSize <= DHCP_MSG_SIZE) {
      return dhcpSize, false;
    }
    DataKept(p, packet[..], dhcpSize);
    assert packet[..][28..28 + dhcpSize] == packet[28..28 + dhcpSize];
    StoreBytes(msg, 0, packet[28..28 + dhcpSize]);
    return dhcpSize, true;
  }
}
