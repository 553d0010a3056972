/** The four-message exchange end to end: option codec, datagrams, checks, backoff. */
module Handshake {
  import opened Bytes
  import opened Checksum
  import opened Packet
  import opened PacketTheorems
  import opened DhcpOptions
  import opened DhcpMessage
  import opened DhcpClient
  import opened ClientTheorems

  function Timeouts(n: nat): (t: seq<Event>)
    ensures |t| == n && ValidEvents(t)
  {
    seq(n, _ => Timeout)
  }

  /** The event of reading, whole, the datagram in which someone sends m to port 68. */
  ghost predicate Carrying(ev: Event, m: seq<Byte>) {
    && ev.Arrival? && ev.Valid() && |m| <= DHCP_MSG_SIZE
    && exists saddr: seq<Byte>, daddr: seq<Byte>, sport: Word16 :: SentAs(ev, m, saddr, daddr, sport)
  }

  predicate SentAs(ev: Event, m: seq<Byte>, saddr: seq<Byte>, daddr: seq<Byte>, sport: Word16)
    requires ev.Arrival? && ev.Valid() && |m| <= DHCP_MSG_SIZE
  {
    && |saddr| == |daddr| == 4
    && ev.nread == HEADERS_SIZE + |m|
    && ev.packet[..ev.nread] == Datagram(m, saddr, daddr, sport, PORT_BOOTP_CLIENT)
  }

  lemma CarryingDelivers(ev: Event, m: seq<Byte>)
    requires Carrying(ev, m)
    ensures Delivers(ev) && Delivered(ev) == m
  {
    var saddr: seq<Byte>, daddr: seq<Byte>, sport: Word16 :| SentAs(ev, m, saddr, daddr, sport);
    var d := Datagram(m, saddr, daddr, sport, PORT_BOOTP_CLIENT);
    assert d[..ev.nread] == d;
    FramingRoundTrip(m, saddr, daddr, sport, PORT_BOOTP_CLIENT, ev.packet, ev.nread);
  }

  /** A server's answer to a transaction of ours, with the given options. */
  predicate ServerMessage(m: seq<Byte>, xid: Word32, hwaddr: seq<Byte>, items: seq<OptionItem>) {
    Writable(items) && ReplyTo(m, xid, hwaddr) && Carries(m, items)
  }

  function Meaning(m: seq<Byte>, items: seq<OptionItem>): DhcpInfo
    requires |m| >= FIXED_SIZE
  {
    FoldItems(items, NO_INFO).(ipaddr := FromLe32(m[16..20]))
  }

  // ---------- what is on the wire ----------

  /** Every message logged went out in the frame logged with it. */
  ghost predicate Framed(log: seq<Sent>) {
    forall s | s in log :: |s.message| <= 262 && s.frame == OnWire(s.message)
  }

  lemma FramedStep(c: Client, hwaddr: seq<Byte>, ev: Event)
    requires |hwaddr| == 6 && ev.Valid() && Framed(c.log)
    ensures Framed(Step(c, hwaddr, ev).log)
  {
    hide Decode, IsValidReply, Receive, OnWire, ClientMessage;
    forall d: Client | Framed(d.log)
      ensures Framed(Transmit(d, hwaddr).log)
    {
      FramedTransmit(d, hwaddr);
    }
    hide Transmit;
  }

  lemma FramedTransmit(c: Client, hwaddr: seq<Byte>)
    requires |hwaddr| == 6 && Framed(c.log)
    ensures Framed(Transmit(c, hwaddr).log)
  {
    hide OnWire;
    var d := Transmit(c, hwaddr);
    var last := d.log[|c.log|];
    assert |last.message| <= 262 && last.frame == OnWire(last.message);
    assert forall s | s in d.log :: s in c.log || s == last;
  }

  lemma {:induction false} FramedAlways(hwaddr: seq<Byte>, xid: Word32, garbage: DhcpInfo, events: seq<Event>)
    requires |hwaddr| == 6 && ValidEvents(events)
    ensures Framed(Run(hwaddr, xid, garbage, events).log)
  {
    hide Framed, Step, Transmit;
    if events == [] {
      FramedTransmit(Client(Selecting, TIMEOUT_INITIAL, xid, garbage.(typ := 0), [], [], [], 0, Running), hwaddr)
        by { NothingFramed(); }
    } else {
      var last := |events| - 1;
      FramedAlways(hwaddr, xid, garbage, events[..last]);
      FramedStep(Run(hwaddr, xid, garbage, events[..last]), hwaddr, events[last]);
    }
  }

  lemma NothingFramed()
    ensures Framed([])
  {
  }

  /** Every message of a run is broadcast from 0.0.0.0 port 68 to 255.255.255.255 port 67,
      whole and with valid checksums. */
  lemma SentOnWire(hwaddr: seq<Byte>, xid: Word32, garbage: DhcpInfo, events: seq<Event>, s: Sent)
    requires |hwaddr| == 6 && ValidEvents(events) && s in Run(hwaddr, xid, garbage, events).log
    ensures var d := s.frame;
            && |d| == 28 + |s.message| && d[28..] == s.message
            && d[0] == 0x45 && d[9] == 17
            && d[12..16] == [0, 0, 0, 0] && d[16..20] == [255, 255, 255, 255]
            && d[20..24] == [0, 68, 0, 67]
            && Canon(NetworkSum(d[..20])) == 65535
            && d[26..28] == RfcCheck(PseudoHeader(d[12..16], d[16..20], d[24..26]) + (d[20..26] + [0, 0] + d[28..]))
  {
    FramedAlways(hwaddr, xid, garbage, events);
    hide Run, OnWire, RfcCheck, NetworkSum, PseudoHeader, Canon;
    FrameBytes(s.message);
  }

  lemma FrameBytes(m: seq<Byte>)
    requires |m| <= 262
    ensures var d := OnWire(m);
            && |d| == 28 + |m| && d[28..] == m && d[0] == 0x45 && d[9] == 17
            && d[12..16] == [0, 0, 0, 0] && d[16..20] == [255, 255, 255, 255] && d[20..24] == [0, 68, 0, 67]
            && Canon(NetworkSum(d[..20])) == 65535
            && d[26..28] == RfcCheck(PseudoHeader(d[12..16], d[16..20], d[24..26]) + (d[20..26] + [0, 0] + d[28..]))
  {
    assert Le32(INADDR_ANY) == [0, 0, 0, 0] && Le32(INADDR_BROADCAST) == [255, 255, 255, 255];
    hide Datagram, RfcCheck, NetworkSum, PseudoHeader, Canon, Le32;
    EmittedBytes(m, Le32(INADDR_ANY), Le32(INADDR_BROADCAST), PORT_BOOTP_CLIENT, PORT_BOOTP_SERVER);
    var d := OnWire(m);
    assert d[0] == d[..4][0] && d[9] == d[4..10][5];
  }

  // ---------- runs in pieces ----------

  lemma {:induction false} RunConcat(c: Client, hwaddr: seq<Byte>, a: seq<Event>, b: seq<Event>)
    requires |hwaddr| == 6 && ValidEvents(a) && ValidEvents(b)
    ensures ValidEvents(a + b)
    ensures RunFrom(c, hwaddr, a + b) == RunFrom(RunFrom(c, hwaddr, a), hwaddr, b)
    decreases |b|
  {
    if b == [] {
      assert a + b == a;
    } else {
      var last := |b| - 1;
      RunConcat(c, hwaddr, a, b[..last]);
      assert (a + b)[..|a| + last] == a + b[..last];
      assert (a + b)[|a| + last] == b[last];
    }
  }

  lemma RunOne(c: Client, hwaddr: seq<Byte>, ev: Event)
    requires |hwaddr| == 6 && ev.Valid()
    ensures RunFrom(c, hwaddr, [ev]) == Step(c, hwaddr, ev)
  {
    assert RunFrom(c, hwaddr, [ev][..0]) == c;
  }

  /** n timeouts in a row from a fresh state: three are survived, the fourth ends; a
      requesting client asks anew for what info says. */
  lemma {:induction false} TimeoutRun(c: Client, hwaddr: seq<Byte>, n: nat)
    requires |hwaddr| == 6 && c.outcome == Running && c.timeout == TIMEOUT_INITIAL
    ensures var d := RunFrom(c, hwaddr, Timeouts(n));
            && d.phase == c.phase && d.xid == c.xid && d.info == c.info
            && (n <= 3 ==> d.outcome == Running && d.timeout == Doubled(n))
            && (n > 3 ==> d.outcome == if c.info.typ == DHCPOFFER then FellBack(c.info) else TimedOut)
            && (n > 0 && c.phase == Requesting ==>
                  d.request == Request(hwaddr, c.xid, c.info.ipaddr, c.info.serveraddr))
  {
    hide Request, Discover, OnWire, Step;
    if n > 0 {
      TimeoutRun(c, hwaddr, n - 1);
      assert Timeouts(n)[..n - 1] == Timeouts(n - 1);
      TimeoutTurn(RunFrom(c, hwaddr, Timeouts(n - 1)), hwaddr);
      DoubledValues(n);
      if n > 4 {
        DoubledValues(n - 1);
      }
    }
  }

  lemma DoubledValues(n: nat)
    requires n > 0
    ensures n <= 3 ==> Doubled(n) == 2 * Doubled(n - 1) && Doubled(n - 1) < TIMEOUT_MAX
    ensures Doubled(3) == TIMEOUT_MAX
  {
  }

  function Doubled(n: nat): nat {
    if n == 0 then TIMEOUT_INITIAL else 2 * Doubled(n - 1)
  }

  lemma TimeoutTurn(c: Client, hwaddr: seq<Byte>)
    requires |hwaddr| == 6
    ensures var d := Step(c, hwaddr, Timeout);
            && d.phase == c.phase && d.xid == c.xid && d.info == c.info
            && (c.outcome != Running ==> d == c)
            && (c.outcome == Running && c.timeout >= TIMEOUT_MAX ==>
                  d.outcome == (if c.info.typ == DHCPOFFER then FellBack(c.info) else TimedOut)
                  && d.request == c.request)
            && (c.outcome == Running && c.timeout < TIMEOUT_MAX ==>
                  && d.outcome == Running && d.timeout == 2 * c.timeout
                  && (c.phase == Requesting ==>
                        d.request == Request(hwaddr, c.xid, c.info.ipaddr, c.info.serveraddr)))
  {
    hide Request, Discover, OnWire;
  }

  lemma {:induction false} InvFrom(c: Client, hwaddr: seq<Byte>, xid: Word32, events: seq<Event>)
    requires |hwaddr| == 6 && ValidEvents(events) && Inv(c, hwaddr, xid)
    ensures Inv(RunFrom(c, hwaddr, events), hwaddr, xid)
  {
    if events != [] {
      var last := |events| - 1;
      InvFrom(c, hwaddr, xid, events[..last]);
      InvStep(RunFrom(c, hwaddr, events[..last]), hwaddr, xid, events[last]);
    }
  }

  lemma {:induction false} EndedStays(c: Client, hwaddr: seq<Byte>, events: seq<Event>)
    requires |hwaddr| == 6 && ValidEvents(events) && c.outcome != Running
    ensures RunFrom(c, hwaddr, events) == c
  {
    if events != [] {
      EndedStays(c, hwaddr, events[..|events| - 1]);
    }
  }

  lemma OfferTurn(c: Client, hwaddr: seq<Byte>, xid: Word32, ev: Event, m: seq<Byte>, items: seq<OptionItem>)
    requires |hwaddr| == 6 && Inv(c, hwaddr, xid) && c.outcome == Running && c.phase == Selecting
    requires Carrying(ev, m) && ServerMessage(m, xid, hwaddr, items) && Meaning(m, items).typ == DHCPOFFER
    ensures var d := Step(c, hwaddr, ev);
            && d.outcome == Running && d.phase == Requesting && d.timeout == TIMEOUT_INITIAL
            && d.xid == Wrap32(xid + 1) && d.info == Meaning(m, items)
            && d.request == Request(hwaddr, d.xid, d.info.ipaddr, d.info.serveraddr)
  {
    hide Carrying, Datagram, Decode, Request, OnMessage, Carries, Writable, FoldItems, Discover, OnWire;
    CarryingDelivers(ev, m);
    CurrentFields(c, hwaddr, xid);
    DecodeCarried(m, items);
    OfferAccepted(c, hwaddr, m);
  }

  lemma OfferAccepted(c: Client, hwaddr: seq<Byte>, m: seq<Byte>)
    requires |hwaddr| == 6 && c.phase == Selecting
    requires IsValidReply(c.Current(), m) && Decode(m).typ == DHCPOFFER
    ensures var d := OnMessage(c, hwaddr, m);
            && d.outcome == c.outcome && d.phase == Requesting && d.timeout == TIMEOUT_INITIAL
            && d.xid == Wrap32(c.xid + 1) && d.info == Decode(m)
            && d.request == Request(hwaddr, d.xid, d.info.ipaddr, d.info.serveraddr)
  {
    hide Decode, Request, Discover, OnWire, IsValidReply;
  }

  lemma AckTurn(c: Client, hwaddr: seq<Byte>, xid: Word32, ev: Event, m: seq<Byte>, items: seq<OptionItem>)
    requires |hwaddr| == 6 && Inv(c, hwaddr, xid) && c.outcome == Running && c.phase == Requesting
    requires Carrying(ev, m) && ServerMessage(m, Wrap32(xid + 1), hwaddr, items)
    requires Meaning(m, items).typ == DHCPACK
    ensures Step(c, hwaddr, ev).outcome == Acked(Meaning(m, items))
  {
    CarryingDelivers(ev, m);
    DecodeCarried(m, items);
    EndsByReplyExactly(c, hwaddr, xid, ev, Meaning(m, items));
  }

  /** The handshake with losses: a DISCOVERs and b REQUESTs time out before the server's
      OFFER and ACK arrive, each encoded from an option list, framed by send_packet and
      carried whole; in between, before and after, any number of polls are interrupted,
      reads fail for once and packets for others arrive. The client takes the ACK's
      parameters exactly when at most three polls time out in each state; after a fourth it
      gives up, or, once it has the OFFER, falls back on it. */
  lemma HandshakeWithLosses(hwaddr: seq<Byte>, xid: Word32, garbage: DhcpInfo, events: seq<Event>, a: nat, b: nat,
                            offerEv: Event, offer: seq<Byte>, offerItems: seq<OptionItem>,
                            ackEv: Event, ack: seq<Byte>, ackItems: seq<OptionItem>)
    requires |hwaddr| == 6
    requires Carrying(offerEv, offer) && ServerMessage(offer, xid, hwaddr, offerItems)
    requires Carrying(ackEv, ack) && ServerMessage(ack, Wrap32(xid + 1), hwaddr, ackItems)
    requires Meaning(offer, offerItems).typ == DHCPOFFER && Meaning(ack, ackItems).typ == DHCPACK
    requires ValidEvents(events) && WithoutIdle(events) == (Timeouts(a) + [offerEv]) + (Timeouts(b) + [ackEv])
    ensures Run(hwaddr, xid, garbage, events).outcome
         == if a > 3 then TimedOut
            else if b > 3 then FellBack(Meaning(offer, offerItems))
            else Acked(Meaning(ack, ackItems))
  {
    hide Idle, Carrying, ServerMessage, Meaning, Start, WithoutIdle;
    IdleRemoved(Start(hwaddr, xid, garbage), hwaddr, events);
    HandshakeOnly(hwaddr, xid, garbage, a, b, offerEv, offer, offerItems, ackEv, ack, ackItems);
  }

  /** The same with nothing in between. */
  lemma HandshakeOnly(hwaddr: seq<Byte>, xid: Word32, garbage: DhcpInfo, a: nat, b: nat,
                      offerEv: Event, offer: seq<Byte>, offerItems: seq<OptionItem>,
                      ackEv: Event, ack: seq<Byte>, ackItems: seq<OptionItem>)
    requires |hwaddr| == 6
    requires Carrying(offerEv, offer) && ServerMessage(offer, xid, hwaddr, offerItems)
    requires Carrying(ackEv, ack) && ServerMessage(ack, Wrap32(xid + 1), hwaddr, ackItems)
    requires Meaning(offer, offerItems).typ == DHCPOFFER && Meaning(ack, ackItems).typ == DHCPACK
    ensures var events := (Timeouts(a) + [offerEv]) + (Timeouts(b) + [ackEv]);
            && ValidEvents(events)
            && Run(hwaddr, xid, garbage, events).outcome
               == if a > 3 then TimedOut
                  else if b > 3 then FellBack(Meaning(offer, offerItems))
                  else Acked(Meaning(ack, ackItems))
  {
    var c0 := Start(hwaddr, xid, garbage);
    InvStart(hwaddr, xid, garbage);
    RunConcat(c0, hwaddr, Timeouts(a), [offerEv]);
    RunConcat(c0, hwaddr, Timeouts(a) + [offerEv], Timeouts(b) + [ackEv]);
    var c1 := RunFrom(c0, hwaddr, Timeouts(a));
    TimeoutRun(c0, hwaddr, a);
    InvFrom(c0, hwaddr, xid, Timeouts(a));
    RunOne(c1, hwaddr, offerEv);
    if a > 3 {
      EndedStays(c1, hwaddr, Timeouts(b) + [ackEv]);
    } else {
      OfferTurn(c1, hwaddr, xid, offerEv, offer, offerItems);
      var c2 := Step(c1, hwaddr, offerEv);
      InvStep(c1, hwaddr, xid, offerEv);
      AfterOffer(c2, hwaddr, xid, b, ackEv, ack, ackItems);
    }
  }

  lemma AfterOffer(c: Client, hwaddr: seq<Byte>, xid: Word32, b: nat,
                   ev: Event, ack: seq<Byte>, items: seq<OptionItem>)
    requires |hwaddr| == 6 && Inv(c, hwaddr, xid) && c.outcome == Running
    requires c.phase == Requesting && c.timeout == TIMEOUT_INITIAL && c.info.typ == DHCPOFFER
    requires Carrying(ev, ack) && ServerMessage(ack, Wrap32(xid + 1), hwaddr, items)
    requires Meaning(ack, items).typ == DHCPACK
    ensures ValidEvents(Timeouts(b) + [ev])
    ensures RunFrom(c, hwaddr, Timeouts(b) + [ev]).outcome
         == if b > 3 then FellBack(c.info) else Acked(Meaning(ack, items))
  {
    RunConcat(c, hwaddr, Timeouts(b), [ev]);
    var d := RunFrom(c, hwaddr, Timeouts(b));
    TimeoutRun(c, hwaddr, b);
    InvFrom(c, hwaddr, xid, Timeouts(b));
    RunOne(d, hwaddr, ev);
    if b <= 3 {
      AckTurn(d, hwaddr, xid, ev, ack, items);
    }
  }

  /** The final timeout's message claims "offered parameters", but the parameters may be
      nobody's offer to this client: for every message that is not a reply to the
      DISCOVER but carries an OFFER, delivering it and then nothing makes the client
      configure itself from it, without ever having sent a REQUEST. */
  lemma StrayOfferConfigured(hwaddr: seq<Byte>, xid: Word32, garbage: DhcpInfo,
                             ev: Event, stray: seq<Byte>, items: seq<OptionItem>)
    requires |hwaddr| == 6
    requires Carrying(ev, stray) && Writable(items) && Carries(stray, items)
    requires !ReplyTo(stray, xid, hwaddr) && Meaning(stray, items).typ == DHCPOFFER
    ensures ValidEvents([ev] + Timeouts(4))
    ensures var c := Run(hwaddr, xid, garbage, [ev] + Timeouts(4));
            c.outcome == FellBack(Meaning(stray, items)) && c.phase == Selecting
  {
    var c0 := Start(hwaddr, xid, garbage);
    InvStart(hwaddr, xid, garbage);
    CurrentFields(c0, hwaddr, xid);
    CarryingDelivers(ev, stray);
    DecodeCarried(stray, items);
    RunConcat(c0, hwaddr, [ev], Timeouts(4));
    RunOne(c0, hwaddr, ev);
    var c1 := Step(c0, hwaddr, ev);
    assert c1 == c0.(info := Meaning(stray, items));
    TimeoutRun(c1, hwaddr, 4);
  }

  lemma StrayTurn(c: Client, hwaddr: seq<Byte>, ev: Event, stray: seq<Byte>)
    requires |hwaddr| == 6 && c.outcome == Running && c.phase == Requesting
    requires ev.Valid() && Delivers(ev) && Delivered(ev) == stray && Decode(stray).typ == DHCPOFFER
    ensures Step(c, hwaddr, ev) == c.(info := Decode(stray))
  {
    hide Decode, IsValidReply;
  }

  /** It happens to a requesting client too: after a genuine OFFER, any delivered OFFER
      takes its place in info. Silence then has the client ask for the stray message's
      address and in the end configure it. */
  lemma StrayAfterOffer(hwaddr: seq<Byte>, xid: Word32, garbage: DhcpInfo,
                        offerEv: Event, offer: seq<Byte>, offerItems: seq<OptionItem>,
                        strayEv: Event, stray: seq<Byte>, items: seq<OptionItem>)
    requires |hwaddr| == 6
    requires Carrying(offerEv, offer) && ServerMessage(offer, xid, hwaddr, offerItems)
    requires Meaning(offer, offerItems).typ == DHCPOFFER
    requires Carrying(strayEv, stray) && Writable(items) && Carries(stray, items)
    requires Meaning(stray, items).typ == DHCPOFFER
    ensures var events := ([offerEv] + [strayEv]) + Timeouts(4);
            && ValidEvents(events)
            && var c := Run(hwaddr, xid, garbage, events);
               && c.outcome == FellBack(Meaning(stray, items)) && c.phase == Requesting
               && c.request == Request(hwaddr, Wrap32(xid + 1), Meaning(stray, items).ipaddr,
                                       Meaning(stray, items).serveraddr)
  {
    hide Step, Decode, Request, Meaning, Datagram;
    var c0 := Start(hwaddr, xid, garbage);
    InvStart(hwaddr, xid, garbage);
    StartIsSelecting(hwaddr, xid, garbage);
    RunConcat(c0, hwaddr, [offerEv] + [strayEv], Timeouts(4));
    RunConcat(c0, hwaddr, [offerEv], [strayEv]);
    RunOne(c0, hwaddr, offerEv);
    OfferTurn(c0, hwaddr, xid, offerEv, offer, offerItems);
    var c1 := Step(c0, hwaddr, offerEv);
    RunOne(c1, hwaddr, strayEv);
    CarryingDelivers(strayEv, stray);
    DecodeCarried(stray, items);
    IsMeaning(stray, items);
    StrayTurn(c1, hwaddr, strayEv, stray);
    TimeoutRun(Step(c1, hwaddr, strayEv), hwaddr, 4);
  }

  lemma IsMeaning(m: seq<Byte>, items: seq<OptionItem>)
    requires |m| >= FIXED_SIZE
    ensures Meaning(m, items) == FoldItems(items, NO_INFO).(ipaddr := FromLe32(m[16..20]))
  {
  }

  lemma StartIsSelecting(hwaddr: seq<Byte>, xid: Word32, garbage: DhcpInfo)
    requires |hwaddr| == 6
    ensures var c := Start(hwaddr, xid, garbage);
            c.outcome == Running && c.phase == Selecting && c.timeout == TIMEOUT_INITIAL && c.xid == xid
  {
  }
}
