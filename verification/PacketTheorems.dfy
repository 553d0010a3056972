/** What receive_packet accepts, that it accepts what send_packet emits, and which
    corruptions it detects. */
module PacketTheorems {
  import opened Bytes
  import opened Checksum
  import opened Packet

  /** Version 4 and a 20-byte header, UDP, destination port 68, whole as far as the IP length
      says; type of service, identification, fragment field and time to live are free. */
  predicate ForClient(p: seq<Byte>, nread: nat)
    requires |p| == PACKET_SIZE
  {
    && 28 <= nread
    && p[0] == 0x45 && p[9] == 17
    && p[22..24] == [0, 68]
    && FromBe16(p[2..4]) <= nread
  }

  lemma FilterExact(p: seq<Byte>, nread: nat)
    requires |p| == PACKET_SIZE
    ensures PassesFilter(p, nread) <==> ForClient(p, nread)
  {
    assert p[22..24] == [p[22], p[23]];
    assert p[0] == p[0] / 16 * 16 + p[0] % 16;
  }

  /** A UDP datagram for the DHCP client port, all of which was read: lengths that agree,
      the checksum of RFC 791 and that of RFC 768, which a zero field leaves out. */
  predicate IsRfcDatagram(p: seq<Byte>, nread: nat)
    requires |p| == PACKET_SIZE && nread <= PACKET_SIZE
  {
    && ForClient(p, nread)
    && LengthsAgree(p)
    && Canon(NetworkSum(p[..IP_HEADER_SIZE])) == 65535
    && (p[26..28] == [0, 0] || Canon(NetworkSum(UdpWithPseudo(p, FromBe16(p[2..4])))) == 65535)
  }

  /** Room for both headers, and the UDP length is that of the rest of the IP packet. */
  predicate LengthsAgree(p: seq<Byte>)
    requires |p| == PACKET_SIZE
  {
    FromBe16(p[2..4]) >= HEADERS_SIZE && FromBe16(p[24..26]) == FromBe16(p[2..4]) - IP_HEADER_SIZE
  }

  /** The pseudo header and the UDP datagram as it is. */
  function UdpWithPseudo(p: seq<Byte>, total: nat): seq<Byte>
    requires |p| == PACKET_SIZE && HEADERS_SIZE <= total <= PACKET_SIZE
  {
    PseudoHeader(p[12..16], p[16..20], p[24..26]) + p[20..total]
  }

  /** The pseudo header and the UDP datagram with a zero check field. */
  function UdpCovered(p: seq<Byte>, total: nat): seq<Byte>
    requires |p| == PACKET_SIZE && HEADERS_SIZE <= total <= PACKET_SIZE
  {
    PseudoHeader(p[12..16], p[16..20], p[24..26]) + (p[20..26] + [0, 0] + p[28..total])
  }

  lemma SumOfBlock(b: seq<Byte>)
    requires |b| <= PACKET_SIZE
    ensures Sum(b, 0) == Canon(WordSum(b))
  {
    NoWrap(b, 0);
  }

  lemma SwapAllOnes(c: Word16)
    ensures Swap16(c) == 65535 <==> c == 65535
  {
  }

  lemma HeaderCheck(h: seq<Byte>)
    requires |h| == IP_HEADER_SIZE
    ensures FinishSum(Sum(h, 0)) == 0 <==> Canon(NetworkSum(h)) == 65535
  {
    SumOfBlock(h);
    ByteOrderIndependence(h);
    SwapAllOnes(Canon(WordSum(h)));
  }

  lemma FieldMatches(field: seq<Byte>, v: Word16)
    requires |field| == 2
    ensures FromLe16(field) == v <==> field == Le16(v)
  {
  }

  lemma ScratchHead(len: seq<Byte>, addrs: seq<Byte>)
    requires |len| == 2 && |addrs| == 8
    ensures WordSum([0, 0] + len + [0, 0, 0, 0, 0, IPPROTO_UDP, 0, 0] + addrs)
         == WordSum(addrs + [0, IPPROTO_UDP] + len)
  {
    var zeros: seq<Byte> := [0, 0, 0, 0];
    var udp: seq<Byte> := [0, IPPROTO_UDP];
    var blank: seq<Byte> := [0, 0];
    WordSumConcat(blank + len + [0, 0, 0, 0, 0, IPPROTO_UDP, 0, 0], addrs);
    WordSumConcat(blank + len, [0, 0, 0, 0, 0, IPPROTO_UDP, 0, 0]);
    WordSumConcat(blank, len);
    assert [0, 0, 0, 0, 0, IPPROTO_UDP, 0, 0] == zeros + udp + blank;
    WordSumConcat(zeros + udp, blank);
    WordSumConcat(zeros, udp);
    WordSumConcat(addrs + udp, len);
    WordSumConcat(addrs, udp);
  }

  /** The single sum over the borrowed IP header covers what the sender's chain of calls
      over the pseudo header covers. */
  lemma ScratchSum(p: seq<Byte>, total: nat)
    requires |p| == PACKET_SIZE && HEADERS_SIZE <= total <= PACKET_SIZE
    ensures WordSum(Scratch(p)[..total]) == WordSum(UdpCovered(p, total))
  {
    var addrs, len := p[12..20], p[24..26];
    var body := p[20..26] + [0, 0] + p[28..total];
    var head := [0, 0] + len + [0, 0, 0, 0, 0, IPPROTO_UDP, 0, 0] + addrs;
    assert Scratch(p)[..total] == head + body;
    assert PseudoHeader(p[12..16], p[16..20], len) == addrs + [0, IPPROTO_UDP] + len;
    WordSumConcat(head, body);
    WordSumConcat(PseudoHeader(p[12..16], p[16..20], len), body);
    ScratchHead(len, addrs);
  }

  lemma UdpCheck(p: seq<Byte>, total: nat)
    requires |p| == PACKET_SIZE && HEADERS_SIZE <= total <= PACKET_SIZE
    ensures FromLe16(p[26..28]) == FinishSum(Sum(Scratch(p)[..total], 0))
       <==> p[26..28] == RfcCheck(UdpCovered(p, total))
  {
    var sum := Canon(WordSum(UdpCovered(p, total)));
    SumOfBlock(Scratch(p)[..total]);
    ScratchSum(p, total);
    StoredChecksum(UdpCovered(p, total));
    FieldMatches(p[26..28], FinishSum(sum));
  }

  lemma UdpFieldSum(p: seq<Byte>, total: nat)
    requires |p| == PACKET_SIZE && HEADERS_SIZE <= total <= PACKET_SIZE
    ensures NetworkSum(UdpWithPseudo(p, total)) == NetworkSum(UdpCovered(p, total)) + FromBe16(p[26..28])
    ensures NetworkSum(UdpCovered(p, total)) > 0
  {
    hide PseudoHeader;
    var pseudo, head, field, data := PseudoHeader(p[12..16], p[16..20], p[24..26]), p[20..26], p[26..28], p[28..total];
    assert p[20..total] == head + (field + data);
    assert head + [0, 0] + data == head + ([0, 0] + data);
    NetworkSumConcat(pseudo, head + (field + data));
    NetworkSumConcat(pseudo, head + ([0, 0] + data));
    NetworkSumConcat(head, field + data);
    NetworkSumConcat(head, [0, 0] + data);
    NetworkSumConcat(field, data);
    NetworkSumConcat([0, 0], data);
    assert field[2..] == [];
    PseudoPositive(p[12..16], p[16..20], p[24..26]);
  }

  lemma PseudoPositive(saddr: seq<Byte>, daddr: seq<Byte>, len: seq<Byte>)
    requires |saddr| == |daddr| == 4 && |len| == 2
    ensures NetworkSum(PseudoHeader(saddr, daddr, len)) > 0
  {
    var udp: seq<Byte> := [0, IPPROTO_UDP];
    assert PseudoHeader(saddr, daddr, len) == (saddr + daddr) + (udp + len);
    NetworkSumConcat(saddr + daddr, udp + len);
    NetworkSumConcat(udp, len);
  }

  /** A sum is filled up to all ones by its complement, and an all-ones sum by all ones. */
  lemma {:induction false} FillsUp(sum: nat, v: Word16)
    requires sum > 0
    ensures Canon(sum + v) == 65535 <==> v == 65535 - Canon(sum) || (v == 65535 && Canon(sum) == 65535)
  {
    if sum > 65535 {
      FillsUp(sum - 65535, v);
    }
  }

  lemma CheckField(field: seq<Byte>, v: Word16)
    requires |field| == 2
    ensures field == Be16(v) <==> FromBe16(field) == v
    ensures FromBe16(field) == 0 <==> field == [0, 0]
    ensures FromBe16(field) == 65535 <==> field == [0xff, 0xff]
  {
  }

  /** The test made on the check field, in terms of the sum over what it covers. */
  lemma ReceivePasses(p: seq<Byte>, nread: nat)
    requires |p| == PACKET_SIZE && nread <= PACKET_SIZE && FromBe16(p[2..4]) >= HEADERS_SIZE
    ensures Receive(p, nread) != Rejected
       <==> ForClient(p, nread) && Canon(NetworkSum(p[..IP_HEADER_SIZE])) == 65535
            && p[26..28] == RfcCheck(UdpCovered(p, FromBe16(p[2..4])))
    ensures Receive(p, nread) != Rejected ==> Receive(p, nread) == CopyOut(p)
  {
    FilterExact(p, nread);
    HeaderCheck(p[..IP_HEADER_SIZE]);
    if PassesFilter(p, nread) {
      UdpCheck(p, FromBe16(p[2..4]));
    }
  }

  /** What the single sum of the receiver covers, whatever the IP length: pseudo header and
      datagram, or when the length leaves no room for them only the first bytes of the
      header built in place. */
  function Covered(p: seq<Byte>, total: nat): seq<Byte>
    requires |p| == PACKET_SIZE && total <= PACKET_SIZE
  {
    if total >= 28 then UdpCovered(p, total)
    else ([0, 0] + p[24..26] + [0, 0, 0, 0, 0, 17, 0, 0] + p[12..26] + [0, 0])[..total]
  }

  /** The verdict on every buffer, whether or not the lengths agree: the packet passes if
      and only if it is for the client, its IP header sums to all ones and the UDP check
      field is the checksum of what is covered. Then as many bytes as the UDP length says
      are copied out, if that is a size the message buffer can hold. */
  lemma ReceiveExact(p: seq<Byte>, nread: nat)
    requires |p| == PACKET_SIZE && nread <= PACKET_SIZE
    ensures Receive(p, nread) == Rejected
       <==> !(&& ForClient(p, nread)
              && Canon(NetworkSum(p[..20])) == 65535
              && p[26..28] == RfcCheck(Covered(p, FromBe16(p[2..4]))))
    ensures Receive(p, nread) != Rejected ==>
              var size := FromBe16(p[24..26]) as int - 8;
              Receive(p, nread) == if 0 <= size <= 1260 then Accepted(p[28..28 + size]) else OutOfBounds
  {
    FilterExact(p, nread);
    var total: nat := FromBe16(p[2..4]);
    if total >= HEADERS_SIZE {
      ReceivePasses(p, nread);
    } else if PassesFilter(p, nread) {
      HeaderCheck(p[..IP_HEADER_SIZE]);
      var part := Covered(p, total);
      assert Scratch(p)[..total] == part;
      hide Scratch, Covered;
      SumOfBlock(part);
      StoredChecksum(part);
      FieldMatches(p[26..28], FinishSum(Canon(WordSum(part))));
    }
  }

  /** The sum over what the UDP check field covers is all ones, so that the field is 0. */
  predicate SumIsAllOnes(p: seq<Byte>, nread: nat)
    requires |p| == PACKET_SIZE && nread <= PACKET_SIZE && IsRfcDatagram(p, nread)
  {
    Canon(NetworkSum(UdpCovered(p, FromBe16(p[2..4])))) == 65535
  }

  /** On every buffer, receive_packet and the RFCs differ in two ways only: it passes
      packets whose lengths do not agree, and it does not know the zero rule of RFC 768,
      so it rejects datagrams without a UDP checksum and those whose checksum is sent as
      0xffff because it is 0. A valid datagram that passes yields its exact data. */
  lemma ReceiveMeaning(p: seq<Byte>, nread: nat)
    requires |p| == PACKET_SIZE && nread <= PACKET_SIZE
    ensures Receive(p, nread) != Rejected && !IsRfcDatagram(p, nread)
       <==> Receive(p, nread) != Rejected && !LengthsAgree(p)
    ensures IsRfcDatagram(p, nread) && Receive(p, nread) == Rejected
       <==> IsRfcDatagram(p, nread)
            && (p[26..28] == [0xff, 0xff] || (p[26..28] == [0, 0] && !SumIsAllOnes(p, nread)))
    ensures IsRfcDatagram(p, nread) && Receive(p, nread) != Rejected ==>
              Receive(p, nread) == Accepted(p[HEADERS_SIZE..FromBe16(p[2..4])])
  {
    hide Receive, ForClient, NetworkSum, UdpCovered, UdpWithPseudo, Canon;
    ReceiveFilter(p, nread);
    if LengthsAgree(p) && ForClient(p, nread) {
      var total: nat := FromBe16(p[2..4]);
      var sum := NetworkSum(UdpCovered(p, total));
      ReceivePasses(p, nread);
      UdpFieldSum(p, total);
      FillsUp(sum, FromBe16(p[26..28]));
      CheckField(p[26..28], 65535 - Canon(sum));
      CanonPositive(sum);
    }
  }

  lemma ReceiveFilter(p: seq<Byte>, nread: nat)
    requires |p| == PACKET_SIZE && nread <= PACKET_SIZE
    ensures Receive(p, nread) != Rejected ==> ForClient(p, nread)
    ensures ForClient(p, nread) ==> HEADERS_SIZE <= nread && FromBe16(p[2..4]) <= nread
  {
    FilterExact(p, nread);
  }

  lemma {:induction false} CanonPositive(n: nat)
    requires n > 0
    ensures Canon(n) > 0
  {
    if n > 65535 {
      CanonPositive(n - 65535);
    }
  }

  // ---------- bytes that were never read ----------

  lemma SameHeads(p: seq<Byte>, q: seq<Byte>, nread: nat)
    requires |p| == |q| == PACKET_SIZE && HEADERS_SIZE <= nread <= PACKET_SIZE && p[..nread] == q[..nread]
    ensures forall i | 0 <= i < nread :: p[i] == q[i]
    ensures p[..20] == q[..20] && p[2..4] == q[2..4] && p[22..24] == q[22..24] && p[24..26] == q[24..26]
    ensures p[26..28] == q[26..28]
    ensures forall total: nat | total <= nread :: Scratch(p)[..total] == Scratch(q)[..total]
  {
    forall i | 0 <= i < nread
      ensures p[i] == q[i]
    {
      assert p[..nread][i] == q[..nread][i];
    }
    assert p[24..26] == q[24..26] && p[12..26] == q[12..26];
    assert forall i | 0 <= i < nread :: Scratch(p)[i] == Scratch(q)[i];
  }

  /** Whether a packet passes depends on the bytes read only. */
  lemma VerdictFromRead(p: seq<Byte>, q: seq<Byte>, nread: nat)
    requires |p| == |q| == PACKET_SIZE && nread <= PACKET_SIZE && p[..nread] == q[..nread]
    ensures Receive(p, nread) == Rejected <==> Receive(q, nread) == Rejected
    ensures Receive(p, nread) != Rejected ==>
              Receive(p, nread) == CopyOut(p) && Receive(q, nread) == CopyOut(q) && p[24..26] == q[24..26]
  {
    if nread >= HEADERS_SIZE {
      hide Scratch;
      SameHeads(p, q, nread);
      assert p[0] == q[0] && p[9] == q[9];
    }
  }

  /** The message passed on is determined by the bytes read if and only if the UDP length
      stays within them. */
  lemma PayloadWasRead(p: seq<Byte>, nread: nat)
    requires |p| == PACKET_SIZE && nread <= PACKET_SIZE && Receive(p, nread).Accepted?
    ensures (forall q: seq<Byte> | |q| == PACKET_SIZE && q[..nread] == p[..nread] ::
               Receive(q, nread) == Receive(p, nread))
       <==> FromBe16(p[24..26]) - 8 <= nread - HEADERS_SIZE
  {
    VerdictFromRead(p, p, nread);
    var size: int := FromBe16(p[24..26]) as int - 8;
    hide Receive;
    if size <= nread - HEADERS_SIZE {
      forall q: seq<Byte> | |q| == PACKET_SIZE && q[..nread] == p[..nread]
        ensures Receive(q, nread) == Receive(p, nread)
      {
        VerdictFromRead(p, q, nread);
        assert q[28..28 + size] == q[..nread][28..28 + size] == p[..nread][28..28 + size] == p[28..28 + size];
      }
    } else {
      var q := p[nread := if p[nread] == 0 then 1 else 0];
      assert q[..nread] == p[..nread];
      VerdictFromRead(p, q, nread);
      UnreadByte(p, q, nread, size);
    }
  }

  lemma UnreadByte(p: seq<Byte>, q: seq<Byte>, at: nat, size: nat)
    requires |p| == |q| == PACKET_SIZE && HEADERS_SIZE <= at < HEADERS_SIZE + size <= PACKET_SIZE && p[at] != q[at]
    ensures p[28..28 + size] != q[28..28 + size]
  {
    assert p[28..28 + size][at - 28] == p[at] && q[28..28 + size][at - 28] == q[at];
  }

  // ---------- round trip ----------

  lemma Be16Inverse(v: Word16)
    ensures FromBe16(Be16(v)) == v
  {
  }

  /** Filling the check field with the complement of the header sum makes the whole
      header sum to all ones. */
  lemma HeaderVerifies(total: Word16, saddr: seq<Byte>, daddr: seq<Byte>)
    requires |saddr| == |daddr| == 4
    ensures Canon(NetworkSum(CheckedIpHeader(total, saddr, daddr))) == 65535
  {
    var blank := IpHeader(Be16(total), [0, 0], saddr, daddr);
    var sealed := CheckedIpHeader(total, saddr, daddr);
    var front, back := blank[..10], saddr + daddr;
    var check := RfcCheck(blank);
    assert blank == front + ([0, 0] + back);
    assert sealed == front + (check + back);
    NetworkSumConcat(front, [0, 0] + back);
    NetworkSumConcat(front, check + back);
    NetworkSumConcat([0, 0], back);
    NetworkSumConcat(check, back);
    FieldSum(65535 - Canon(NetworkSum(blank)));
    ComplementFills(NetworkSum(blank));
  }

  lemma FieldSum(v: Word16)
    ensures NetworkSum(Be16(v)) == v
  {
    assert Be16(v)[2..] == [];
  }

  /** Where the fields of an emitted datagram are. */
  lemma DatagramFields(payload: seq<Byte>, saddr: seq<Byte>, daddr: seq<Byte>, sport: Word16, dport: Word16)
    requires |saddr| == |daddr| == 4 && |payload| <= 65507
    ensures var d := Datagram(payload, saddr, daddr, sport, dport);
            && d[..20] == CheckedIpHeader(HEADERS_SIZE + |payload|, saddr, daddr)
            && d[20..28] == CheckedUdpHeader(payload, saddr, daddr, sport, dport)
            && d[28..] == payload
            && d[0] == 0x45 && d[9] == IPPROTO_UDP
            && d[2..4] == Be16(HEADERS_SIZE + |payload|)
            && d[12..16] == saddr && d[16..20] == daddr
  {
    var ip := CheckedIpHeader(HEADERS_SIZE + |payload|, saddr, daddr);
    var d := Datagram(payload, saddr, daddr, sport, dport);
    assert d[..20] == ip;
    assert d[2..4] == ip[2..4] && d[12..16] == ip[12..16] && d[16..20] == ip[16..20];
  }

  lemma UdpFields(payload: seq<Byte>, saddr: seq<Byte>, daddr: seq<Byte>, sport: Word16, dport: Word16)
    requires |saddr| == |daddr| == 4 && |payload| <= 65507
    ensures var h := CheckedUdpHeader(payload, saddr, daddr, sport, dport);
            && h[2..4] == Be16(dport) && h[4..6] == Be16(8 + |payload|)
            && h[6..8] == RfcCheck(PseudoHeader(saddr, daddr, h[4..6]) + (h[..6] + [0, 0] + payload))
  {
    var s, d, len := Be16(sport), Be16(dport), Be16(8 + |payload|);
    var h := CheckedUdpHeader(payload, saddr, daddr, sport, dport);
    assert h[..6] + [0, 0] == UdpHeader(s, d, len, [0, 0]);
    assert PseudoHeader(saddr, daddr, len) + UdpHeader(s, d, len, [0, 0]) + payload
        == PseudoHeader(saddr, daddr, len) + (UdpHeader(s, d, len, [0, 0]) + payload);
  }

  /** Every byte of an emitted datagram outside its two check fields, which RfcCheck and
      HeaderVerifies describe. */
  lemma EmittedBytes(payload: seq<Byte>, saddr: seq<Byte>, daddr: seq<Byte>, sport: Word16, dport: Word16)
    requires |saddr| == |daddr| == 4 && |payload| <= 65507
    ensures var d := Datagram(payload, saddr, daddr, sport, dport);
            var total, udp := 28 + |payload|, 8 + |payload|;
            && d[..4] == [0x45, 0, total / 256, total % 256] && d[4..10] == [0, 0, 0, 0, 64, 17]
            && d[12..16] == saddr && d[16..20] == daddr
            && d[20..24] == [sport / 256, sport % 256, dport / 256, dport % 256]
            && d[24..26] == [udp / 256, udp % 256]
            && d[28..] == payload
            && Canon(NetworkSum(d[..20])) == 65535
            && d[26..28] == RfcCheck(PseudoHeader(saddr, daddr, d[24..26]) + (d[20..26] + [0, 0] + payload))
  {
    DatagramFields(payload, saddr, daddr, sport, dport);
    UdpFields(payload, saddr, daddr, sport, dport);
    HeaderVerifies(28 + |payload|, saddr, daddr);
    var d := Datagram(payload, saddr, daddr, sport, dport);
    var ip, udp := CheckedIpHeader(28 + |payload|, saddr, daddr), CheckedUdpHeader(payload, saddr, daddr, sport, dport);
    UdpSlices(d);
    hide Datagram;
    assert d[..4] == d[..20][..4] == ip[..4] && d[4..10] == d[..20][4..10] == ip[4..10];
    assert d[20..24] == d[20..28][..4] == udp[..4] == Be16(sport) + Be16(dport);
  }

  /** Whatever datagram send_packet emits (up to the largest UDP payload), the receiver
      hands back exactly its payload, unless it is not for port 68 or does not fit the
      receive buffer, and then it is rejected. p is the buffer after read(). */
  lemma FramingRoundTrip(payload: seq<Byte>, saddr: seq<Byte>, daddr: seq<Byte>,
                         sport: Word16, dport: Word16, p: seq<Byte>, nread: nat)
    requires |saddr| == |daddr| == 4 && |payload| <= 65507
    requires |p| == PACKET_SIZE
    requires var d := Datagram(payload, saddr, daddr, sport, dport);
             nread == (if |d| <= PACKET_SIZE then |d| else PACKET_SIZE) && p[..nread] == d[..nread]
    ensures Receive(p, nread)
         == if dport == PORT_BOOTP_CLIENT && |payload| <= DHCP_MSG_SIZE then Accepted(payload) else Rejected
  {
    var d := Datagram(payload, saddr, daddr, sport, dport);
    DatagramFields(payload, saddr, daddr, sport, dport);
    UdpFields(payload, saddr, daddr, sport, dport);
    PrefixFields(p, d, nread);
    var total := HEADERS_SIZE + |payload|;
    Be16Inverse(total);
    Be16Inverse(dport);
    if |payload| <= DHCP_MSG_SIZE && dport == PORT_BOOTP_CLIENT {
      assert p[28..total] == payload;
      HeaderVerifies(total, saddr, daddr);
      ReceivePasses(p, nread);
      Be16Inverse(8 + |payload|);
    }
  }

  lemma PrefixFields(p: seq<Byte>, d: seq<Byte>, n: nat)
    requires HEADERS_SIZE <= n <= |p| && n <= |d| && p[..n] == d[..n]
    ensures p[0] == d[0] && p[9] == d[9] && p[..20] == d[..20] && p[2..4] == d[2..4]
    ensures p[12..16] == d[12..16] && p[16..20] == d[16..20] && p[20..28] == d[20..28]
    ensures p[28..n] == d[28..n]
    ensures var h := d[20..28];
            p[22..24] == h[2..4] && p[24..26] == h[4..6] && p[20..26] == h[..6] && p[26..28] == h[6..8]
  {
    forall i | 0 <= i < n
      ensures p[i] == d[i]
    {
      assert p[..n][i] == d[..n][i];
    }
    UdpSlices(p);
    UdpSlices(d);
  }

  lemma UdpSlices(s: seq<Byte>)
    requires |s| >= HEADERS_SIZE
    ensures var h := s[20..28];
            s[22..24] == h[2..4] && s[24..26] == h[4..6] && s[20..26] == h[..6] && s[26..28] == h[6..8]
  {
  }

  /** 28 bytes are read, the IP length says 28 and the checksums are right, but the UDP
      length says more: the message consists of bytes that were never read. */
  lemma UnreadMessage(saddr: seq<Byte>, daddr: seq<Byte>, sport: Word16, rest: seq<Byte>)
    requires |saddr| == |daddr| == 4 && |rest| == DHCP_MSG_SIZE
    ensures exists p: seq<Byte> :: |p| == PACKET_SIZE && p[28..] == rest && FromBe16(p[2..4]) == 28
                                   && Receive(p, 28) == Accepted(rest)
  {
    var ip := CheckedIpHeader(28, saddr, daddr);
    var s, d, len := Be16(sport), Be16(PORT_BOOTP_CLIENT), Be16(8 + DHCP_MSG_SIZE);
    var check := RfcCheck(PseudoHeader(saddr, daddr, len) + (s + d + len + [0, 0]));
    var p := ip + UdpHeader(s, d, len, check) + rest;
    CraftedFields(p, 28, saddr, daddr, s, d, len, check, rest);
    assert UdpCovered(p, 28) == PseudoHeader(saddr, daddr, len) + (s + d + len + [0, 0]);
    HeaderVerifies(28, saddr, daddr);
    Be16Inverse(PORT_BOOTP_CLIENT);
    Be16Inverse(8 + DHCP_MSG_SIZE);
    Be16Inverse(28);
    assert p[28..28 + DHCP_MSG_SIZE] == rest;
    hide Receive;
    ReceivePasses(p, 28);
  }

  /** An IP length of 0 makes the UDP checksum that of no bytes at all. */
  lemma UncheckedMessage(saddr: seq<Byte>, daddr: seq<Byte>, sport: Word16, rest: seq<Byte>)
    requires |saddr| == |daddr| == 4 && |rest| == DHCP_MSG_SIZE
    ensures exists p: seq<Byte> :: |p| == PACKET_SIZE && p[28..] == rest && FromBe16(p[2..4]) == 0
                                   && Receive(p, 28) == Accepted(rest)
  {
    var ip := CheckedIpHeader(0, saddr, daddr);
    var s, d, len := Be16(sport), Be16(PORT_BOOTP_CLIENT), Be16(8 + DHCP_MSG_SIZE);
    var p := ip + UdpHeader(s, d, len, [0xff, 0xff]) + rest;
    CraftedFields(p, 0, saddr, daddr, s, d, len, [0xff, 0xff], rest);
    HeaderVerifies(0, saddr, daddr);
    HeaderCheck(p[..IP_HEADER_SIZE]);
    Be16Inverse(PORT_BOOTP_CLIENT);
    Be16Inverse(8 + DHCP_MSG_SIZE);
    Be16Inverse(0);
    assert p[28..28 + DHCP_MSG_SIZE] == rest;
    NoBytesSum(p);
    hide CheckedIpHeader, UdpHeader, Be16, FromBe16, Scratch, Sum, Canon, NetworkSum;
    assert FromLe16(p[26..28]) == 65535;
  }

  lemma NoBytesSum(p: seq<Byte>)
    requires |p| == PACKET_SIZE
    ensures FinishSum(Sum(Scratch(p)[..0], 0)) == 65535
  {
    assert Scratch(p)[..0] == [];
  }

  lemma CraftedFields(p: seq<Byte>, total: Word16, saddr: seq<Byte>, daddr: seq<Byte>, s: seq<Byte>, d: seq<Byte>,
                      len: seq<Byte>, check: seq<Byte>, rest: seq<Byte>)
    requires |saddr| == |daddr| == 4 && |s| == |d| == |len| == |check| == 2 && |rest| == DHCP_MSG_SIZE
    requires p == CheckedIpHeader(total, saddr, daddr) + UdpHeader(s, d, len, check) + rest
    ensures |p| == PACKET_SIZE && p[..20] == CheckedIpHeader(total, saddr, daddr) && p[28..] == rest
    ensures p[0] == 0x45 && p[9] == IPPROTO_UDP && p[2..4] == Be16(total)
    ensures p[12..16] == saddr && p[16..20] == daddr
    ensures p[20..26] == s + d + len && p[22..24] == d && p[24..26] == len && p[26..28] == check
  {
    var ip := CheckedIpHeader(total, saddr, daddr);
    assert p[..20] == ip;
    assert p[2..4] == ip[2..4] && p[12..16] == ip[12..16] && p[16..20] == ip[16..20];
    assert p[20..28] == s + d + len + check;
    UdpSlices(p);
  }

  // ---------- error detection ----------

  /** Two words the checksum cannot tell apart: congruent modulo 65535. */
  predicate SameResidue(v: Word16, w: Word16) {
    v == w || (v == 0 && w == 65535) || (v == 65535 && w == 0)
  }

  lemma {:induction false} CanonWord(n: nat, v: Word16, w: Word16)
    requires n > 0
    ensures Canon(n + v) == Canon(n + w) <==> SameResidue(v, w)
  {
    if n > 65535 {
      CanonWord(n - 65535, v, w);
    }
  }

  lemma {:induction false} CanonWordTwice(n: nat, v: Word16, w: Word16)
    requires n > 0
    ensures Canon(n + v + v) == Canon(n + w + w) <==> SameResidue(v, w)
  {
    if n > 65535 {
      CanonWordTwice(n - 65535, v, w);
    } else {
      CanonThrice(n + v + v);
      CanonThrice(n + w + w);
    }
  }

  lemma CanonThrice(n: nat)
    requires n <= 3 * 65535
    ensures Canon(n) == if n <= 65535 then n else if n <= 131070 then n - 65535 else n - 131070
  {
  }

  function ReplaceWord(b: seq<Byte>, k: nat, lo: Byte, hi: Byte): (c: seq<Byte>)
    requires 2 * k + 1 < |b|
    ensures |c| == |b|
  {
    b[2 * k := lo][2 * k + 1 := hi]
  }

  function WordAt(b: seq<Byte>, k: nat): Word16
    requires 2 * k + 1 < |b|
  {
    FromLe16(b[2 * k..2 * k + 2])
  }

  lemma {:induction false} WordSumPositive(b: seq<Byte>, i: nat)
    requires i < |b| && b[i] > 0
    ensures WordSum(b) > 0
  {
    if i >= 2 {
      WordSumPositive(b[2..], i - 2);
    }
  }

  /** The rest of the sum, when another byte keeps it positive. */
  lemma RestPositive(b: seq<Byte>, k: nat, i: nat)
    requires 2 * k + 1 < |b| && i < |b| && i / 2 != k && b[i] > 0
    ensures WordSum(b) > WordAt(b, k)
  {
    var rest := ReplaceWord(b, k, 0, 0);
    WordSumReplace(b, k, 0, 0);
    assert rest[i] == b[i];
    WordSumPositive(rest, i);
  }

  lemma SumMoves(b: seq<Byte>, k: nat, i: nat, lo: Byte, hi: Byte)
    requires |b| <= PACKET_SIZE && 2 * k + 1 < |b|
    requires i < |b| && i / 2 != k && b[i] > 0
    ensures Sum(ReplaceWord(b, k, lo, hi), 0) == Sum(b, 0) <==> SameResidue(WordAt(b, k), FromLe16([lo, hi]))
  {
    RestPositive(b, k, i);
    WordSumReplace(b, k, lo, hi);
    SumOfBlock(b);
    SumOfBlock(ReplaceWord(b, k, lo, hi));
    CanonWord(WordSum(b) - WordAt(b, k), WordAt(b, k), FromLe16([lo, hi]));
  }

  /** The UDP length is summed twice: in the pseudo header and in the UDP header. */
  lemma SumMovesTwice(b: seq<Byte>, j: nat, k: nat, i: nat, lo: Byte, hi: Byte)
    requires |b| <= PACKET_SIZE && j < k && 2 * k + 1 < |b| && WordAt(b, j) == WordAt(b, k)
    requires i < |b| && i / 2 != k && i / 2 != j && b[i] > 0
    ensures Sum(ReplaceWord(ReplaceWord(b, j, lo, hi), k, lo, hi), 0) == Sum(b, 0)
       <==> SameResidue(WordAt(b, k), FromLe16([lo, hi]))
  {
    var v, w := WordAt(b, k), FromLe16([lo, hi]);
    var c := ReplaceWord(b, j, lo, hi);
    var d := ReplaceWord(c, k, lo, hi);
    WordSumReplace(b, j, lo, hi);
    assert c[2 * k..2 * k + 2] == b[2 * k..2 * k + 2];
    WordSumReplace(c, k, lo, hi);
    var cleared := ReplaceWord(b, j, 0, 0);
    assert cleared[2 * k..2 * k + 2] == b[2 * k..2 * k + 2];
    assert cleared[i] == b[i];
    WordSumReplace(b, j, 0, 0);
    RestPositive(cleared, k, i);
    SumOfBlock(b);
    SumOfBlock(d);
    CanonWordTwice(WordSum(b) - v - v, v, w);
  }

  lemma HeaderWordError(p: seq<Byte>, nread: nat, k: nat, lo: Byte, hi: Byte)
    requires |p| == PACKET_SIZE && nread <= PACKET_SIZE && k < 10
    requires Receive(p, nread) != Rejected
    requires !SameResidue(WordAt(p, k), FromLe16([lo, hi]))
    ensures Receive(ReplaceWord(p, k, lo, hi), nread) == Rejected
  {
    var h := p[..IP_HEADER_SIZE];
    assert ReplaceWord(p, k, lo, hi)[..IP_HEADER_SIZE] == ReplaceWord(h, k, lo, hi);
    Window(p, 0, IP_HEADER_SIZE, 2 * k, 2 * k + 2);
    assert p[0..IP_HEADER_SIZE] == h && WordAt(h, k) == WordAt(p, k);
    assert h[0] > 0 && h[9] > 0;
    SumMoves(h, k, if k == 4 then 0 else 9, lo, hi);
  }

  /** How replacing a word after the IP header shows in the receiver's scratch packet. */
  lemma ScratchWord(p: seq<Byte>, k: nat, total: nat, lo: Byte, hi: Byte)
    requires |p| == PACKET_SIZE && 10 <= k && k != 12 && k != 13
    requires 2 * k + 1 < total && HEADERS_SIZE <= total <= PACKET_SIZE
    ensures Scratch(ReplaceWord(p, k, lo, hi))[..total] == ReplaceWord(Scratch(p)[..total], k, lo, hi)
    ensures WordAt(Scratch(p)[..total], k) == WordAt(p, k)
  {
    var b, q := Scratch(p)[..total], ReplaceWord(p, k, lo, hi);
    assert q[24..26] == p[24..26];
    assert b[2 * k] == p[2 * k] && b[2 * k + 1] == p[2 * k + 1];
    assert b[2 * k..2 * k + 2] == [b[2 * k], b[2 * k + 1]];
    assert p[2 * k..2 * k + 2] == [p[2 * k], p[2 * k + 1]];
    forall i | 0 <= i < total
      ensures Scratch(q)[i] == ReplaceWord(b, k, lo, hi)[i]
    {
    }
    assert Scratch(q)[..total] == ReplaceWord(b, k, lo, hi);
  }

  lemma ScratchCheck(p: seq<Byte>, lo: Byte, hi: Byte)
    requires |p| == PACKET_SIZE
    ensures Scratch(ReplaceWord(p, 13, lo, hi)) == Scratch(p)
  {
    var q := ReplaceWord(p, 13, lo, hi);
    assert q[24..26] == p[24..26] && q[12..26] == p[12..26] && q[28..] == p[28..];
  }

  lemma ScratchLength(p: seq<Byte>, total: nat, lo: Byte, hi: Byte)
    requires |p| == PACKET_SIZE && HEADERS_SIZE <= total <= PACKET_SIZE
    ensures var b := Scratch(p)[..total];
            && WordAt(b, 1) == WordAt(b, 12) == WordAt(p, 12)
            && Scratch(ReplaceWord(p, 12, lo, hi))[..total] == ReplaceWord(ReplaceWord(b, 1, lo, hi), 12, lo, hi)
  {
    var b := Scratch(p)[..total];
    assert b[2..4] == p[24..26] && b[24..26] == p[24..26];
    var q := ReplaceWord(p, 12, lo, hi);
    assert q[24..26] == [lo, hi] && q[12..26] == p[12..24] + [lo, hi] && q[28..] == p[28..];
  }

  lemma UdpWordSum(p: seq<Byte>, k: nat, total: nat, lo: Byte, hi: Byte)
    requires |p| == PACKET_SIZE && 10 <= k && k != 13
    requires 2 * k + 1 < total && HEADERS_SIZE <= total <= PACKET_SIZE
    ensures Sum(Scratch(ReplaceWord(p, k, lo, hi))[..total], 0) == Sum(Scratch(p)[..total], 0)
       <==> SameResidue(WordAt(p, k), FromLe16([lo, hi]))
  {
    var b := Scratch(p)[..total];
    assert b[9] == IPPROTO_UDP;
    if k == 12 {
      ScratchLength(p, total, lo, hi);
      SumMovesTwice(b, 1, k, 9, lo, hi);
    } else {
      ScratchWord(p, k, total, lo, hi);
      SumMoves(b, k, 9, lo, hi);
    }
  }

  lemma KeepsHeader(p: seq<Byte>, k: nat, lo: Byte, hi: Byte)
    requires |p| == PACKET_SIZE && 10 <= k && 2 * k + 1 < |p|
    ensures var q := ReplaceWord(p, k, lo, hi);
            && q[..IP_HEADER_SIZE] == p[..IP_HEADER_SIZE] && q[2..4] == p[2..4]
            && (k != 13 ==> q[26..28] == p[26..28])
            && (k == 13 ==> FromLe16(q[26..28]) == FromLe16([lo, hi]))
            && (k != 11 ==> q[22..24] == p[22..24])
            && q[0] == p[0] && q[9] == p[9]
  {
    var q := ReplaceWord(p, k, lo, hi);
    if k == 13 {
      assert q[26..28] == [lo, hi];
    }
  }

  lemma UdpWordError(p: seq<Byte>, nread: nat, k: nat, lo: Byte, hi: Byte)
    requires |p| == PACKET_SIZE && nread <= PACKET_SIZE
    requires Receive(p, nread) != Rejected
    requires 10 <= k && HEADERS_SIZE <= FromBe16(p[2..4]) && 2 * k + 1 < FromBe16(p[2..4])
    requires !SameResidue(WordAt(p, k), FromLe16([lo, hi]))
    ensures Receive(ReplaceWord(p, k, lo, hi), nread) == Rejected
  {
    var total: nat := FromBe16(p[2..4]);
    KeepsHeader(p, k, lo, hi);
    if k == 13 {
      ScratchCheck(p, lo, hi);
    } else {
      UdpWordSum(p, k, total, lo, hi);
    }
  }

  /** Replacing any one aligned word of an accepted datagram (IP header, UDP header or
      data) by a word that is not congruent to it gets the datagram rejected. */
  lemma SingleWordErrorDetected(p: seq<Byte>, nread: nat, k: nat, lo: Byte, hi: Byte)
    requires |p| == PACKET_SIZE && nread <= PACKET_SIZE
    requires Receive(p, nread) != Rejected
    requires k < 10 || (HEADERS_SIZE <= FromBe16(p[2..4]) && 2 * k + 1 < FromBe16(p[2..4]))
    requires !SameResidue(WordAt(p, k), FromLe16([lo, hi]))
    ensures Receive(ReplaceWord(p, k, lo, hi), nread) == Rejected
  {
    if k < 10 {
      HeaderWordError(p, nread, k, lo, hi);
    } else {
      UdpWordError(p, nread, k, lo, hi);
    }
  }

  /** In the data the converse holds too: exactly the congruent replacements pass. */
  lemma DataWordErrorExact(p: seq<Byte>, nread: nat, k: nat, lo: Byte, hi: Byte)
    requires |p| == PACKET_SIZE && nread <= PACKET_SIZE
    requires Receive(p, nread) != Rejected
    requires 14 <= k && 2 * k + 1 < FromBe16(p[2..4])
    ensures Receive(ReplaceWord(p, k, lo, hi), nread) == Rejected
       <==> !SameResidue(WordAt(p, k), FromLe16([lo, hi]))
  {
    KeepsHeader(p, k, lo, hi);
    UdpWordSum(p, k, FromBe16(p[2..4]), lo, hi);
  }
}
