/** The negotiation of dhcp_init_ifc: two states, exponential backoff, retransmission.

    poll() and read() are the environment: a run is driven by the sequence of their
    outcomes, and ends with it if the loop has not returned by then. */
module DhcpClient {
  import opened Bytes
  import opened Packet
  import opened DhcpOptions
  import opened DhcpMessage

  const TIMEOUT_INITIAL := 4000
  const TIMEOUT_MAX := 32000
  const INADDR_ANY: Word32 := 0
  const INADDR_BROADCAST: Word32 := 0xffff_ffff

  datatype Phase = Selecting | Requesting

  /** What one turn of the loop meets: a poll timeout, a poll interrupted by a signal or
      failed, a failed read (fatal for ENETDOWN and ENXIO), or a packet, given by the
      packet buffer after read() and the number of bytes read. */
  datatype Event =
    | Timeout
    | PollInterrupted
    | PollFailed
    | ReadFailed(fatal: bool)
    | Arrival(packet: seq<Byte>, nread: nat)
  {
    predicate Valid() {
      Arrival? ==> |packet| == PACKET_SIZE && nread <= PACKET_SIZE
    }
  }

  /** How the call ends. Acked and FellBack call dhcp_configure, which makes the info the
      last good one; OutOfBounds is the undefined memcpy of receive_packet. */
  datatype Outcome =
    | Running
    | Acked(configured: DhcpInfo)
    | FellBack(configured: DhcpInfo)
    | TimedOut
    | Denied
    | Failed
    | OutOfBounds

  /** A message passed to send_message, and the datagram put on the wire for it. */
  datatype Sent = Sent(phase: Phase, message: seq<Byte>, frame: seq<Byte>)

  datatype Client = Client(
    phase: Phase,
    timeout: nat,
    xid: Word32,
    info: DhcpInfo,
    discover: seq<Byte>,   // discover_msg
    request: seq<Byte>,    // request_msg
    log: seq<Sent>,        // messages passed to send_message
    timeouts: nat,         // poll timeouts met
    outcome: Outcome)
  {
    /** The message a reply is compared with. */
    function Current(): seq<Byte> {
      if phase == Selecting then discover else request
    }
  }

  /** is_valid_reply; msg is always a message of ours, so its hlen is 6. */
  predicate IsValidReply(msg: seq<Byte>, reply: seq<Byte>) {
    && |reply| >= FIXED_SIZE
    && reply[0] == OP_BOOTREPLY
    && |msg| >= FIXED_SIZE && msg[2] == HLEN
    && reply[4..8] == msg[4..8]
    && reply[1] == msg[1]
    && reply[2] == msg[2]
    && reply[28..34] == msg[28..34]
  }

  function Transmit(c: Client, hwaddr: seq<Byte>): Client
    requires |hwaddr| == 6
  {
    match c.phase
    case Selecting =>
      var m := Discover(hwaddr, c.xid);
      c.(discover := m, log := c.log + [Sent(Selecting, m, OnWire(m))])
    case Requesting =>
      var m := Request(hwaddr, c.xid, c.info.ipaddr, c.info.serveraddr);
      c.(request := m, log := c.log + [Sent(Requesting, m, OnWire(m))])
  }

  function OnTimeout(c: Client, hwaddr: seq<Byte>): Client
    requires |hwaddr| == 6
  {
    var d := c.(timeouts := c.timeouts + 1);
    if c.timeout >= TIMEOUT_MAX then
      d.(outcome := if c.info.typ == DHCPOFFER then FellBack(c.info) else TimedOut)
    else
      Transmit(d.(timeout := c.timeout * 2), hwaddr)
  }

  /** A message copied out of a packet. It is decoded into info before it is checked. */
  function OnMessage(c: Client, hwaddr: seq<Byte>, reply: seq<Byte>): Client
    requires |hwaddr| == 6
  {
    var d := c.(info := Decode(reply));
    if !IsValidReply(c.Current(), reply) then d
    else match c.phase
      case Selecting =>
        if d.info.typ == DHCPOFFER then
          Transmit(d.(phase := Requesting, timeout := TIMEOUT_INITIAL, xid := Wrap32(c.xid + 1)), hwaddr)
        else d
      case Requesting =>
        if d.info.typ == DHCPACK then d.(outcome := Acked(d.info))
        else if d.info.typ == DHCPNAK then d.(outcome := Denied)
        else d
  }

  function Step(c: Client, hwaddr: seq<Byte>, ev: Event): Client
    requires |hwaddr| == 6 && ev.Valid()
  {
    if c.outcome != Running then c
    else match ev
      case Timeout => OnTimeout(c, hwaddr)
      case PollInterrupted => c
      case PollFailed => c.(outcome := Failed)
      case ReadFailed(fatal) => if fatal then c.(outcome := Failed) else c
      case Arrival(packet, nread) =>
        match Receive(packet, nread)
        case Rejected => c
        case OutOfBounds => c.(outcome := Outcome.OutOfBounds)
        case Accepted(reply) => OnMessage(c, hwaddr, reply)
  }

  /** The state after the first transmit; garbage is what the stack held where info is. */
  function Start(hwaddr: seq<Byte>, xid: Word32, garbage: DhcpInfo): Client
    requires |hwaddr| == 6
  {
    Transmit(Client(Selecting, TIMEOUT_INITIAL, xid, garbage.(typ := 0), [], [], [], 0, Running), hwaddr)
  }

  predicate ValidEvents(events: seq<Event>) {
    forall e | e in events :: e.Valid()
  }

  function RunFrom(c: Client, hwaddr: seq<Byte>, events: seq<Event>): Client
    requires |hwaddr| == 6 && ValidEvents(events)
  {
    if events == [] then c
    else
      var last := |events| - 1;
      Step(RunFrom(c, hwaddr, events[..last]), hwaddr, events[last])
  }

  function Run(hwaddr: seq<Byte>, xid: Word32, garbage: DhcpInfo, events: seq<Event>): Client
    requires |hwaddr| == 6 && ValidEvents(events)
  {
    RunFrom(Start(hwaddr, xid, garbage), hwaddr, events)
  }

  // ---------- the code ----------

  /** send_message: dump, then hand to send_packet. */
  method SendMessage(msg: array<Byte>, size: nat) returns (frame: seq<Byte>)
    requires size <= msg.Length == MSG_SIZE
    modifies msg
    ensures msg[..] == Dumped(old(msg[..]), size)
    ensures frame == Datagram(msg[..size], Le32(INADDR_ANY), Le32(INADDR_BROADCAST),
                              PORT_BOOTP_CLIENT, PORT_BOOTP_SERVER)
  {
    hide Dumped, Datagram, Le32;
    var visited := DumpDhcpMsg(msg, size);
    frame := SendPacket(msg, size, INADDR_ANY, INADDR_BROADCAST, PORT_BOOTP_CLIENT, PORT_BOOTP_SERVER);
  }

  /** Dumping one of our own messages before sending leaves it as built. */
  lemma DumpKeepsOwnMessage(m: seq<Byte>, size: nat, hwaddr: seq<Byte>, xid: seq<Byte>)
    requires |hwaddr| == 6 && |xid| == 4
    requires FIXED_SIZE <= size <= |m| == MSG_SIZE && m[..FIXED_SIZE] == FixedPart(hwaddr, xid)
    ensures Dumped(m, size) == m
  {
    var h := FixedPart(hwaddr, xid);
    assert h[34..] == Zeros(202);
    assert m[SNAME_AT..FILE_AT] == h[SNAME_AT..FILE_AT] == h[34..][10..74] == Zeros(64);
    assert m[FILE_AT..FIXED_SIZE] == h[FILE_AT..FIXED_SIZE] == h[34..][74..202] == Zeros(128);
    CleanedZeros(64);
    CleanedZeros(128);
    assert m == m[..SNAME_AT] + m[SNAME_AT..FILE_AT] + m[FILE_AT..FIXED_SIZE] + m[FIXED_SIZE..];
  }

  lemma CleanedZeros(n: nat)
    ensures Cleaned(Zeros(n)) == Zeros(n)
  {
    var z := Zeros(n);
    forall i | 0 <= i < n
      ensures Cleaned(z)[i] == 0
    {
      assert z[..i + 1][i] == 0;
    }
  }

  method TransmitDiscover(msg: array<Byte>, hwaddr: seq<Byte>, xid: Word32) returns (frame: seq<Byte>)
    requires msg.Length == MSG_SIZE && |hwaddr| == 6
    modifies msg
    ensures msg[..250] == Discover(hwaddr, xid)
    ensures frame == OnWire(Discover(hwaddr, xid))
  {
    var size := InitDhcpDiscoverMsg(msg, hwaddr, xid);
    assert msg[..][..FIXED_SIZE] == msg[..size][..FIXED_SIZE] == FixedPart(hwaddr, Le32(xid));
    DumpKeepsOwnMessage(msg[..], size, hwaddr, Le32(xid));
    ghost var m := msg[..];
    frame := SendMessage(msg, size);
    assert msg[..size] == m[..size];
  }

  method TransmitRequest(msg: array<Byte>, hwaddr: seq<Byte>, xid: Word32, ipaddr: Word32, serveraddr: Word32)
    returns (frame: seq<Byte>)
    requires msg.Length == MSG_SIZE && |hwaddr| == 6
    modifies msg
    ensures msg[..262] == Request(hwaddr, xid, ipaddr, serveraddr)
    ensures frame == OnWire(Request(hwaddr, xid, ipaddr, serveraddr))
  {
    var size := InitDhcpRequestMsg(msg, hwaddr, xid, ipaddr, serveraddr);
    assert msg[..][..FIXED_SIZE] == msg[..size][..FIXED_SIZE] == FixedPart(hwaddr, Le32(xid));
    DumpKeepsOwnMessage(msg[..], size, hwaddr, Le32(xid));
    ghost var m := msg[..];
    frame := SendMessage(msg, size);
    assert msg[..size] == m[..size];
  }

  function OnWire(message: seq<Byte>): seq<Byte>
    requires |message| <= 65507
  {
    Datagram(message, Le32(INADDR_ANY), Le32(INADDR_BROADCAST), PORT_BOOTP_CLIENT, PORT_BOOTP_SERVER)
  }

  /** The transmit label: the state picks the message that is built and sent. */
  method TransmitFor(state: Phase, discoverMsg: array<Byte>, requestMsg: array<Byte>, hwaddr: seq<Byte>,
                     xid: Word32, info: DhcpInfo, ghost c: Client)
    returns (sent: Sent)
    requires discoverMsg.Length == requestMsg.Length == MSG_SIZE && discoverMsg != requestMsg
    requires |hwaddr| == 6 && c.phase == state && c.xid == xid && c.info == info
    modifies discoverMsg, requestMsg
    ensures var d := Transmit(c, hwaddr);
            && d == c.(discover := d.discover, request := d.request, log := c.log + [sent])
            && (state == Selecting ==> discoverMsg[..250] == d.discover)
            && (state == Requesting ==> requestMsg[..262] == d.request && discoverMsg[..] == old(discoverMsg[..]))
  {
    match state {
      case Selecting =>
        var frame := TransmitDiscover(discoverMsg, hwaddr, xid);
        sent := Sent(Selecting, discoverMsg[..250], frame);
      case Requesting =>
        var frame := TransmitRequest(requestMsg, hwaddr, xid, info.ipaddr, info.serveraddr);
        sent := Sent(Requesting, requestMsg[..262], frame);
    }
  }

  /** receive_packet, dump_dhcp_msg and decode_dhcp_msg in a row: the dump between them
      changes neither what is decoded nor what is_valid_reply sees. */
  method ReceiveAndDecode(event: Event, reply: array<Byte>, ghost current: seq<Byte>)
    returns (r: int, inBounds: bool, info: DhcpInfo)
    requires event.Arrival? && event.Valid() && reply.Length == MSG_SIZE
    modifies reply
    ensures match Receive(event.packet, event.nread)
            case Rejected => inBounds && r == -1
            case OutOfBounds => !inBounds
            case Accepted(m) =>
              && inBounds && 0 <= r <= MSG_SIZE && info == Decode(m)
              && (IsValidReply(current, reply[..r]) <==> IsValidReply(current, m))
  {
    info := NO_INFO;
    var packet := new Byte[PACKET_SIZE](i requires 0 <= i < |event.packet| => event.packet[i]);
    assert packet[..] == event.packet;
    r, inBounds := ReceivePacket(packet, event.nread, reply);
    if inBounds && r >= 0 {
      ghost var before := reply[..];
      assert before[..r] == reply[..r];
      DumpPreservesDecode(before, r);
      SameReply(current, before, r);
      var visited := DumpDhcpMsg(reply, r);
      assert reply[..r] == Dumped(before, r)[..r];
      var status;
      status, info := DecodeDhcpMsg(reply, r);
    }
  }

  lemma SameReply(current: seq<Byte>, m: seq<Byte>, size: nat)
    requires size <= |m| == MSG_SIZE
    ensures IsValidReply(current, Dumped(m, size)[..size]) <==> IsValidReply(current, m[..size])
  {
    var a, b := Dumped(m, size)[..size], m[..size];
    if size >= FIXED_SIZE {
      assert a[..SNAME_AT] == b[..SNAME_AT];
      assert a[..SNAME_AT][4..8] == a[4..8] && b[..SNAME_AT][4..8] == b[4..8];
      assert a[..SNAME_AT][28..34] == a[28..34] && b[..SNAME_AT][28..34] == b[28..34];
      assert forall i | 0 <= i < 4 :: a[i] == a[..SNAME_AT][i] && b[i] == b[..SNAME_AT][i];
    }
  }

  lemma {:induction false} EndedRunStays(c: Client, hwaddr: seq<Byte>, events: seq<Event>, k: nat)
    requires |hwaddr| == 6 && ValidEvents(events) && k <= |events|
    requires RunFrom(c, hwaddr, events[..k]).outcome != Running
    ensures RunFrom(c, hwaddr, events) == RunFrom(c, hwaddr, events[..k])
  {
    if k == |events| {
      assert events[..k] == events;
    } else {
      var last := |events| - 1;
      assert events[..last][..k] == events[..k];
      EndedRunStays(c, hwaddr, events[..last], k);
    }
  }

  lemma RunStep(c: Client, hwaddr: seq<Byte>, events: seq<Event>, k: nat)
    requires |hwaddr| == 6 && ValidEvents(events) && k < |events|
    ensures RunFrom(c, hwaddr, events[..k + 1]) == Step(RunFrom(c, hwaddr, events[..k]), hwaddr, events[k])
  {
    assert events[..k + 1][..k] == events[..k];
  }

  /** The local variables of dhcp_init_ifc that live across turns of its loop. */
  datatype Locals = Locals(state: Phase, timeout: nat, xid: Word32, info: DhcpInfo,
                           sent: seq<Sent>, outcome: Outcome)

  /** The locals and the two message buffers represent the state c. */
  ghost predicate Tracks(l: Locals, discoverMsg: seq<Byte>, requestMsg: seq<Byte>, c: Client) {
    && c.outcome == l.outcome && c.log == l.sent
    && (l.outcome == Running ==>
          && c.phase == l.state && c.timeout == l.timeout && c.xid == l.xid && c.info == l.info
          && discoverMsg == c.discover
          && (l.state == Requesting ==> requestMsg == c.request))
  }

  method HandleTimeout(l0: Locals, discoverMsg: array<Byte>, requestMsg: array<Byte>, hwaddr: seq<Byte>,
                       ghost c: Client)
    returns (l: Locals)
    requires discoverMsg.Length == requestMsg.Length == MSG_SIZE && discoverMsg != requestMsg
    requires |hwaddr| == 6 && l0.outcome == Running
    requires Tracks(l0, discoverMsg[..250], requestMsg[..262], c)
    modifies discoverMsg, requestMsg
    ensures Tracks(l, discoverMsg[..250], requestMsg[..262], OnTimeout(c, hwaddr))
  {
    if l0.timeout >= TIMEOUT_MAX {
      l := l0.(outcome := if l0.info.typ == DHCPOFFER then FellBack(l0.info) else TimedOut);
    } else {
      l := l0.(timeout := l0.timeout * 2);
      var message := TransmitFor(l.state, discoverMsg, requestMsg, hwaddr, l.xid, l.info,
                                 c.(timeouts := c.timeouts + 1, timeout := l.timeout));
      l := l.(sent := l.sent + [message]);
    }
  }

  method AcceptOffer(l0: Locals, discoverMsg: array<Byte>, requestMsg: array<Byte>, hwaddr: seq<Byte>,
                     ghost c: Client)
    returns (l: Locals)
    requires discoverMsg.Length == requestMsg.Length == MSG_SIZE && discoverMsg != requestMsg
    requires |hwaddr| == 6 && l0.outcome == Running
    requires Tracks(l0, discoverMsg[..250], requestMsg[..262], c)
    modifies discoverMsg, requestMsg
    ensures Tracks(l, discoverMsg[..250], requestMsg[..262],
                   Transmit(c.(phase := Requesting, timeout := TIMEOUT_INITIAL, xid := Wrap32(c.xid + 1)), hwaddr))
  {
    l := l0.(state := Requesting, timeout := TIMEOUT_INITIAL, xid := Wrap32(l0.xid + 1));
    var message := TransmitFor(l.state, discoverMsg, requestMsg, hwaddr, l.xid, l.info,
                               c.(phase := l.state, timeout := l.timeout, xid := l.xid));
    assert discoverMsg[..250] == old(discoverMsg[..250]);
    l := l.(sent := l.sent + [message]);
  }

  /** The turn after a message was received and decoded: m is the message as received,
      reply[..r] the same message after the dump. */
  method HandleReply(l0: Locals, decoded: DhcpInfo, discoverMsg: array<Byte>, requestMsg: array<Byte>,
                     reply: array<Byte>, r: nat, hwaddr: seq<Byte>, ghost m: seq<Byte>, ghost c: Client)
    returns (l: Locals)
    requires discoverMsg.Length == requestMsg.Length == reply.Length == MSG_SIZE && discoverMsg != requestMsg
    requires |hwaddr| == 6 && l0.outcome == Running && r <= MSG_SIZE
    requires Tracks(l0, discoverMsg[..250], requestMsg[..262], c)
    requires decoded == Decode(m)
    requires IsValidReply(c.Current(), reply[..r]) <==> IsValidReply(c.Current(), m)
    modifies discoverMsg, requestMsg
    ensures Tracks(l, discoverMsg[..250], requestMsg[..262], OnMessage(c, hwaddr, m))
  {
    hide Decode, Discover, Request, OnWire, Transmit;
    l := l0.(info := decoded);
    var validReply: bool;
    if l.state == Selecting {
      validReply := IsValidReply(discoverMsg[..250], reply[..r]);
    } else {
      validReply := IsValidReply(requestMsg[..262], reply[..r]);
    }
    if !validReply {
      return;
    }
    match l.state {
      case Selecting =>
        if l.info.typ == DHCPOFFER {
          l := AcceptOffer(l, discoverMsg, requestMsg, hwaddr, c.(info := decoded));
        }
      case Requesting =>
        if l.info.typ == DHCPACK {
          l := l.(outcome := Acked(l.info));
        } else if l.info.typ == DHCPNAK {
          l := l.(outcome := Denied);
        }
    }
  }

  method Turn(l0: Locals, event: Event, discoverMsg: array<Byte>, requestMsg: array<Byte>, reply: array<Byte>,
              hwaddr: seq<Byte>, ghost c: Client)
    returns (l: Locals)
    requires discoverMsg.Length == requestMsg.Length == reply.Length == MSG_SIZE
    requires discoverMsg != requestMsg && discoverMsg != reply && requestMsg != reply
    requires |hwaddr| == 6 && l0.outcome == Running && event.Valid()
    requires Tracks(l0, discoverMsg[..250], requestMsg[..262], c)
    modifies discoverMsg, requestMsg, reply
    ensures Tracks(l, discoverMsg[..250], requestMsg[..262], Step(c, hwaddr, event))
  {
    l := l0;
    match event {
      case Timeout =>
        l := HandleTimeout(l, discoverMsg, requestMsg, hwaddr, c);
      case PollInterrupted =>
      case PollFailed =>
        l := l.(outcome := Failed);
      case ReadFailed(fatal) =>
        if fatal {
          l := l.(outcome := Failed);
        }
      case Arrival(packet, nread) =>
        ghost var d, q := discoverMsg[..250], requestMsg[..262];
        var r, inBounds, decoded := ReceiveAndDecode(event, reply, c.Current());
        assert discoverMsg[..250] == d && requestMsg[..262] == q;
        if !inBounds {
          l := l.(outcome := Outcome.OutOfBounds);
        } else if r >= 0 {
          l := HandleReply(l, decoded, discoverMsg, requestMsg, reply, r, hwaddr,
                           Receive(packet, nread).payload, c);
        }
    }
  }

  /** The whole call performs exactly the run of the state machine: same ending, same
      messages and datagrams sent. */
  method DhcpInitIfc(hwaddr: seq<Byte>, startXid: Word32, garbage: DhcpInfo, events: seq<Event>)
    returns (outcome: Outcome, sent: seq<Sent>)
    requires |hwaddr| == 6 && ValidEvents(events)
    ensures outcome == Run(hwaddr, startXid, garbage, events).outcome
    ensures sent == Run(hwaddr, startXid, garbage, events).log
  {
    var discoverMsg, requestMsg, reply := new Byte[MSG_SIZE], new Byte[MSG_SIZE], new Byte[MSG_SIZE];
    var l := Locals(Selecting, TIMEOUT_INITIAL, startXid, garbage.(typ := 0), [], Running);
    ghost var c := Client(l.state, l.timeout, l.xid, l.info, [], [], [], 0, Running);
    var message := TransmitFor(l.state, discoverMsg, requestMsg, hwaddr, l.xid, l.info, c);
    l := l.(sent := [message]);
    c := Transmit(c, hwaddr);
    ghost var start := c;
    var i := 0;
    while i < |events| && l.outcome == Running
      invariant 0 <= i <= |events|
      invariant fresh(discoverMsg) && fresh(requestMsg) && fresh(reply)
      invariant c == RunFrom(start, hwaddr, events[..i])
      invariant Tracks(l, discoverMsg[..250], requestMsg[..262], c)
    {
      RunStep(start, hwaddr, events, i);
      l := Turn(l, events[i], discoverMsg, requestMsg, reply, hwaddr, c);
      c := Step(c, hwaddr, events[i]);
      i := i + 1;
    }
    if l.outcome != Running {
      EndedRunStays(start, hwaddr, events, i);
    } else {
      assert events[..i] == events;
    }
    outcome, sent := l.outcome, l.sent;
  }
}
