/** What holds of every run of the DHCP negotiation. */
module ClientTheorems {
  import opened Bytes
  import opened Packet
  import opened DhcpOptions
  import opened DhcpMessage
  import opened DhcpClient

  // ---------- the retransmission budget ----------

  /** How often the timeout has been doubled in the current state. */
  function Level(timeout: nat): nat {
    if timeout <= 4000 then 0 else if timeout <= 8000 then 1 else if timeout <= 16000 then 2 else 3
  }

  function Count(log: seq<Sent>, phase: Phase): nat {
    if log == [] then 0
    else Count(log[..|log| - 1], phase) + (if log[|log| - 1].phase == phase then 1 else 0)
  }

  lemma CountAppend(log: seq<Sent>, s: Sent, phase: Phase)
    ensures Count(log + [s], phase) == Count(log, phase) + (if s.phase == phase then 1 else 0)
  {
    assert (log + [s])[..|log|] == log;
  }

  /** Every logged message is the client's DISCOVER with the first xid, or a REQUEST with
      the next one. */
  ghost predicate OwnMessage(s: Sent, hwaddr: seq<Byte>, xid: Word32)
    requires |hwaddr| == 6
  {
    match s.phase
    case Selecting => s.message == Discover(hwaddr, xid)
    case Requesting => exists ip: Word32, server: Word32 :: IsRequest(s.message, hwaddr, xid, ip, server)
  }

  predicate IsRequest(m: seq<Byte>, hwaddr: seq<Byte>, xid: Word32, ip: Word32, server: Word32)
    requires |hwaddr| == 6
  {
    m == Request(hwaddr, Wrap32(xid + 1), ip, server)
  }

  ghost predicate Inv(c: Client, hwaddr: seq<Byte>, xid: Word32)
    requires |hwaddr| == 6
  {
    var level := Level(c.timeout);
    var discovers, requests := Count(c.log, Selecting), Count(c.log, Requesting);
    var ended := if c.outcome.TimedOut? || c.outcome.FellBack? then 1 else 0;
    && c.timeout in {4000, 8000, 16000, 32000}
    && |c.log| > 0 && c.log[|c.log| - 1].phase == c.phase
    && c.Current() == c.log[|c.log| - 1].message
    && (forall s | s in c.log :: OwnMessage(s, hwaddr, xid))
    && c.xid == (if c.phase == Selecting then xid else Wrap32(xid + 1))
    && 1 <= discovers <= 4
    && (c.phase == Selecting ==> discovers == level + 1 && requests == 0)
    && (c.phase == Requesting ==> requests == level + 1)
    && c.timeouts + 1 + (if c.phase == Requesting then 1 else 0) == discovers + requests + ended
  }

  lemma TransmitLogs(c: Client, hwaddr: seq<Byte>, xid: Word32)
    requires |hwaddr| == 6
    requires c.xid == (if c.phase == Selecting then xid else Wrap32(xid + 1))
    requires forall s | s in c.log :: OwnMessage(s, hwaddr, xid)
    ensures var d := Transmit(c, hwaddr);
            && |d.log| == |c.log| + 1 && d.log[|c.log|].phase == c.phase
            && d.Current() == d.log[|c.log|].message
            && (forall s | s in d.log :: OwnMessage(s, hwaddr, xid))
            && Count(d.log, Selecting) == Count(c.log, Selecting) + (if c.phase == Selecting then 1 else 0)
            && Count(d.log, Requesting) == Count(c.log, Requesting) + (if c.phase == Requesting then 1 else 0)
  {
    var d := Transmit(c, hwaddr);
    var s := d.log[|c.log|];
    CountAppend(c.log, s, Selecting);
    CountAppend(c.log, s, Requesting);
    if c.phase == Requesting {
      assert IsRequest(s.message, hwaddr, xid, c.info.ipaddr, c.info.serveraddr);
    }
  }

  /** A client about to send: the ledger lacks the message to come. */
  ghost predicate AboutToSend(c: Client, hwaddr: seq<Byte>, xid: Word32)
    requires |hwaddr| == 6
  {
    var discovers, requests := Count(c.log, Selecting), Count(c.log, Requesting);
    && c.outcome == Running
    && c.timeout in {4000, 8000, 16000, 32000}
    && (forall s | s in c.log :: OwnMessage(s, hwaddr, xid))
    && c.xid == (if c.phase == Selecting then xid else Wrap32(xid + 1))
    && (c.phase == Selecting ==> discovers == Level(c.timeout) && requests == 0)
    && (c.phase == Requesting ==> 1 <= discovers <= 4 && requests == Level(c.timeout))
    && c.timeouts + (if c.phase == Requesting then 1 else 0) == discovers + requests
  }

  lemma InvTransmit(c: Client, hwaddr: seq<Byte>, xid: Word32)
    requires |hwaddr| == 6 && AboutToSend(c, hwaddr, xid)
    ensures Inv(Transmit(c, hwaddr), hwaddr, xid)
  {
    TransmitLogs(c, hwaddr, xid);
  }

  lemma InvStart(hwaddr: seq<Byte>, xid: Word32, garbage: DhcpInfo)
    requires |hwaddr| == 6
    ensures Inv(Start(hwaddr, xid, garbage), hwaddr, xid)
  {
    InvTransmit(Client(Selecting, TIMEOUT_INITIAL, xid, garbage.(typ := 0), [], [], [], 0, Running), hwaddr, xid);
  }

  lemma InvTimeout(c: Client, hwaddr: seq<Byte>, xid: Word32)
    requires |hwaddr| == 6 && Inv(c, hwaddr, xid) && c.outcome == Running
    ensures Inv(OnTimeout(c, hwaddr), hwaddr, xid)
  {
    hide Discover, Request, OnWire, OwnMessage, Count, Transmit;
    if c.timeout < TIMEOUT_MAX {
      var d := c.(timeouts := c.timeouts + 1, timeout := c.timeout * 2);
      assert Level(d.timeout) == Level(c.timeout) + 1;
      InvTransmit(d, hwaddr, xid);
    }
  }

  lemma InvMessage(c: Client, hwaddr: seq<Byte>, xid: Word32, reply: seq<Byte>)
    requires |hwaddr| == 6 && Inv(c, hwaddr, xid) && c.outcome == Running
    ensures Inv(OnMessage(c, hwaddr, reply), hwaddr, xid)
  {
    hide Decode, IsValidReply, Discover, Request, OnWire, Count;
    if c.phase == Selecting && Decode(reply).typ == DHCPOFFER && IsValidReply(c.Current(), reply) {
      var d := c.(info := Decode(reply), phase := Requesting, timeout := TIMEOUT_INITIAL, xid := Wrap32(c.xid + 1));
      InvTransmit(d, hwaddr, xid);
    } else {
      NoOffer(c, hwaddr, reply);
      InvScratch(c, hwaddr, xid, Decode(reply), OnMessage(c, hwaddr, reply).outcome);
    }
  }

  lemma NoOffer(c: Client, hwaddr: seq<Byte>, reply: seq<Byte>)
    requires |hwaddr| == 6 && c.outcome == Running
    requires !(c.phase == Selecting && Decode(reply).typ == DHCPOFFER && IsValidReply(c.Current(), reply))
    ensures var d := OnMessage(c, hwaddr, reply);
            d == c.(info := Decode(reply), outcome := d.outcome) && !d.outcome.TimedOut? && !d.outcome.FellBack?
  {
  }

  lemma InvScratch(c: Client, hwaddr: seq<Byte>, xid: Word32, info: DhcpInfo, outcome: Outcome)
    requires |hwaddr| == 6 && Inv(c, hwaddr, xid) && c.outcome == Running
    requires !outcome.TimedOut? && !outcome.FellBack?
    ensures Inv(c.(info := info, outcome := outcome), hwaddr, xid)
  {
  }

  lemma InvStep(c: Client, hwaddr: seq<Byte>, xid: Word32, ev: Event)
    requires |hwaddr| == 6 && Inv(c, hwaddr, xid) && ev.Valid()
    ensures Inv(Step(c, hwaddr, ev), hwaddr, xid)
  {
    if c.outcome == Running {
      match ev
      case Timeout => InvTimeout(c, hwaddr, xid);
      case Arrival(packet, nread) =>
        match Receive(packet, nread) {
          case Accepted(reply) => InvMessage(c, hwaddr, xid, reply);
          case _ =>
        }
      case _ =>
    }
  }

  lemma {:induction false} InvAlways(hwaddr: seq<Byte>, xid: Word32, garbage: DhcpInfo, events: seq<Event>)
    requires |hwaddr| == 6 && ValidEvents(events)
    ensures Inv(Run(hwaddr, xid, garbage, events), hwaddr, xid)
  {
    if events == [] {
      InvStart(hwaddr, xid, garbage);
    } else {
      var last := |events| - 1;
      InvAlways(hwaddr, xid, garbage, events[..last]);
      InvStep(Run(hwaddr, xid, garbage, events[..last]), hwaddr, xid, events[last]);
    }
  }

  /** On every run: the backoff takes only the four values, at most 4 DISCOVERs and 4
      REQUESTs are sent, all of them ours, and at most 7 polls time out, the one that
      ends the run included. */
  lemma NegotiationBudget(hwaddr: seq<Byte>, xid: Word32, garbage: DhcpInfo, events: seq<Event>)
    requires |hwaddr| == 6 && ValidEvents(events)
    ensures var c := Run(hwaddr, xid, garbage, events);
            && c.timeout in {4000, 8000, 16000, 32000}
            && 1 <= Count(c.log, Selecting) <= 4
            && Count(c.log, Requesting) <= 4
            && c.timeouts <= 7
            && (c.phase == Selecting ==> Count(c.log, Requesting) == 0)
            && (forall s | s in c.log :: OwnMessage(s, hwaddr, xid))
  {
    InvAlways(hwaddr, xid, garbage, events);
  }

  /** Transmissions left: lexicographic in the state and the backoff level. */
  function Budget(c: Client): int {
    (if c.phase == Selecting then 4 else 0) + (3 - Level(c.timeout))
  }

  /** A turn that keeps the run going either spends budget, by a timeout or by moving to
      Requesting, and sends one message, or changes neither state, timeout nor log. */
  lemma StepSpendsBudget(c: Client, hwaddr: seq<Byte>, xid: Word32, ev: Event)
    requires |hwaddr| == 6 && Inv(c, hwaddr, xid) && c.outcome == Running && ev.Valid()
    ensures var d := Step(c, hwaddr, ev);
            && 0 <= Budget(c) <= 7
            && (d.phase == c.phase || d.phase == Requesting)
            && (d.outcome == Running ==>
                  if ev == Timeout || d.phase != c.phase
                  then Budget(d) < Budget(c) && |d.log| == |c.log| + 1
                  else d == c.(info := d.info))
  {
    hide Decode, IsValidReply, Discover, Request, OnWire, Receive, OwnMessage, Count;
    if ev == Timeout {
      assert c.timeout < TIMEOUT_MAX ==> Level(c.timeout * 2) == Level(c.timeout) + 1;
    }
  }

  // ---------- which replies count ----------

  /** A BOOTP reply for the given transaction and our Ethernet address. */
  predicate ReplyTo(m: seq<Byte>, xid: Word32, hwaddr: seq<Byte>) {
    && |m| >= 236
    && m[0] == 2 && m[1] == 1 && m[2] == 6
    && m[4..8] == Le32(xid) && m[28..34] == hwaddr
  }

  lemma ClientMessageFields(hwaddr: seq<Byte>, xid: Word32, m: seq<Byte>)
    requires |hwaddr| == 6 && |m| >= FIXED_SIZE && m[..FIXED_SIZE] == FixedPart(hwaddr, Le32(xid))
    ensures m[1] == HTYPE_ETHER && m[2] == HLEN && m[4..8] == Le32(xid) && m[28..34] == hwaddr
  {
    var h := FixedPart(hwaddr, Le32(xid));
    assert m[1] == h[1] && m[2] == h[2];
    assert m[4..8] == h[4..8] && m[28..34] == h[28..34];
  }

  lemma CurrentFields(c: Client, hwaddr: seq<Byte>, xid: Word32)
    requires |hwaddr| == 6 && Inv(c, hwaddr, xid)
    ensures var m := c.Current();
            |m| >= FIXED_SIZE && m[1] == HTYPE_ETHER && m[2] == HLEN && m[4..8] == Le32(c.xid) && m[28..34] == hwaddr
  {
    var s := c.log[|c.log| - 1];
    assert OwnMessage(s, hwaddr, xid);
    if c.phase == Requesting {
      var ip: Word32, server: Word32 :| IsRequest(s.message, hwaddr, xid, ip, server);
    }
    assert c.Current()[..FIXED_SIZE] == FixedPart(hwaddr, Le32(c.xid));
    ClientMessageFields(hwaddr, c.xid, c.Current());
  }

  /** At every reply check the message compared with is the last one sent, and the check
      passes exactly for replies to the current transaction. */
  lemma CheckedAgainstLastSent(hwaddr: seq<Byte>, xid: Word32, garbage: DhcpInfo, events: seq<Event>, m: seq<Byte>)
    requires |hwaddr| == 6 && ValidEvents(events)
    ensures var c := Run(hwaddr, xid, garbage, events);
            && |c.log| > 0 && c.Current() == c.log[|c.log| - 1].message
            && c.xid == (if c.phase == Selecting then xid else Wrap32(xid + 1))
            && (IsValidReply(c.Current(), m) <==> ReplyTo(m, c.xid, hwaddr))
  {
    InvAlways(hwaddr, xid, garbage, events);
    CurrentFields(Run(hwaddr, xid, garbage, events), hwaddr, xid);
  }

  predicate Delivers(ev: Event) {
    ev.Arrival? && ev.Valid() && Receive(ev.packet, ev.nread).Accepted?
  }

  function Delivered(ev: Event): seq<Byte>
    requires Delivers(ev)
  {
    Receive(ev.packet, ev.nread).payload
  }

  /** A running negotiation is ended by ACK (or NAK) in one turn exactly when it is
      requesting and an ACK (or NAK) for the REQUEST's transaction is delivered; what is
      configured is the decoding of that very message. */
  lemma EndsByReplyExactly(c: Client, hwaddr: seq<Byte>, xid: Word32, ev: Event, info: DhcpInfo)
    requires |hwaddr| == 6 && Inv(c, hwaddr, xid) && c.outcome == Running && ev.Valid()
    ensures Step(c, hwaddr, ev).outcome == Acked(info)
       <==> (&& c.phase == Requesting && Delivers(ev) && ReplyTo(Delivered(ev), Wrap32(xid + 1), hwaddr)
             && info == Decode(Delivered(ev)) && info.typ == DHCPACK)
    ensures Step(c, hwaddr, ev).outcome == Denied
       <==> (&& c.phase == Requesting && Delivers(ev) && ReplyTo(Delivered(ev), Wrap32(xid + 1), hwaddr)
             && Decode(Delivered(ev)).typ == DHCPNAK)
  {
    hide Decode, Discover, Request, OnWire, Receive, OwnMessage, Count, Level;
    CurrentFields(c, hwaddr, xid);
  }

  // ---------- how a turn ends, and turns that do nothing ----------

  /** A turn of a running negotiation fails exactly when poll() fails or read() fails for
      good, is undefined exactly when receive_packet is, and gives up exactly when the
      longest timeout passes with no OFFER in info. */
  lemma TurnEndsExactly(c: Client, hwaddr: seq<Byte>, ev: Event)
    requires |hwaddr| == 6 && ev.Valid() && c.outcome == Running
    ensures Step(c, hwaddr, ev).outcome == Failed <==> ev == PollFailed || ev == ReadFailed(true)
    ensures Step(c, hwaddr, ev).outcome == Outcome.OutOfBounds
       <==> ev.Arrival? && Receive(ev.packet, ev.nread) == Received.OutOfBounds
    ensures Step(c, hwaddr, ev).outcome == TimedOut <==> ev == Timeout && c.timeout >= 32000 && c.info.typ != 2
  {
    hide Decode, IsValidReply, Discover, Request, OnWire, Receive;
  }

  /** What the client sits out: an interrupted poll, a failed read that may be repeated, and
      every packet receive_packet rejects. */
  predicate Idle(ev: Event) {
    || ev == PollInterrupted
    || ev == ReadFailed(false)
    || (ev.Arrival? && ev.Valid() && Receive(ev.packet, ev.nread) == Rejected)
  }

  lemma IdleTurn(c: Client, hwaddr: seq<Byte>, ev: Event)
    requires |hwaddr| == 6 && ev.Valid() && Idle(ev)
    ensures Step(c, hwaddr, ev) == c
  {
    hide Receive;
  }

  function WithoutIdle(events: seq<Event>): (r: seq<Event>)
    requires ValidEvents(events)
    ensures ValidEvents(r)
  {
    if events == [] then []
    else
      var last := |events| - 1;
      WithoutIdle(events[..last]) + (if Idle(events[last]) then [] else [events[last]])
  }

  /** Such events, anywhere in a run and in any number, change nothing of it. */
  lemma {:induction false} IdleRemoved(c: Client, hwaddr: seq<Byte>, events: seq<Event>)
    requires |hwaddr| == 6 && ValidEvents(events)
    ensures RunFrom(c, hwaddr, events) == RunFrom(c, hwaddr, WithoutIdle(events))
    decreases |events|
  {
    hide Step, Idle;
    if events != [] {
      var last := |events| - 1;
      var before := WithoutIdle(events[..last]);
      IdleRemoved(c, hwaddr, events[..last]);
      if Idle(events[last]) {
        IdleTurn(RunFrom(c, hwaddr, before), hwaddr, events[last]);
        assert before + [] == before;
      } else {
        assert (before + [events[last]])[..|before|] == before;
      }
    }
  }

  lemma XidsDiffer(xid: Word32)
    ensures Le32(xid) != Le32(Wrap32(xid + 1))
  {
    assert Wrap32(xid + 1) != xid;
    assert FromLe32(Le32(xid)) != FromLe32(Le32(Wrap32(xid + 1)));
  }

  /** While requesting, a message with the DISCOVER's transaction id changes nothing but
      the scratch info. */
  lemma StaleReplyIgnored(c: Client, hwaddr: seq<Byte>, xid: Word32, ev: Event)
    requires |hwaddr| == 6 && Inv(c, hwaddr, xid) && c.outcome == Running && c.phase == Requesting
    requires Delivers(ev) && |Delivered(ev)| >= 8 && Delivered(ev)[4..8] == Le32(xid)
    ensures Step(c, hwaddr, ev) == c.(info := Decode(Delivered(ev)))
  {
    CurrentFields(c, hwaddr, xid);
    XidsDiffer(xid);
  }

  // ---------- whole runs ----------

  /** The turn that ended a run. */
  lemma {:induction false} EndingTurn(hwaddr: seq<Byte>, xid: Word32, garbage: DhcpInfo, events: seq<Event>)
    returns (k: nat)
    requires |hwaddr| == 6 && ValidEvents(events)
    requires Run(hwaddr, xid, garbage, events).outcome != Running
    ensures k < |events|
    ensures Run(hwaddr, xid, garbage, events[..k]).outcome == Running
    ensures Step(Run(hwaddr, xid, garbage, events[..k]), hwaddr, events[k]).outcome
         == Run(hwaddr, xid, garbage, events).outcome
  {
    var last := |events| - 1;
    if Run(hwaddr, xid, garbage, events[..last]).outcome == Running {
      k := last;
    } else {
      k := EndingTurn(hwaddr, xid, garbage, events[..last]);
      assert events[..last][..k] == events[..k];
    }
  }

  /** A run has failed exactly when a fatal failure met it while it was running; likewise
      for the undefined copy. */
  lemma RunFailsExactly(hwaddr: seq<Byte>, xid: Word32, garbage: DhcpInfo, events: seq<Event>)
    requires |hwaddr| == 6 && ValidEvents(events)
    ensures Run(hwaddr, xid, garbage, events).outcome == Failed
       <==> exists k :: FailsAt(hwaddr, xid, garbage, events, k)
    ensures Run(hwaddr, xid, garbage, events).outcome == Outcome.OutOfBounds
       <==> exists k :: OverrunsAt(hwaddr, xid, garbage, events, k)
  {
    hide Run, Receive, Step;
    var c := Run(hwaddr, xid, garbage, events);
    if c.outcome == Failed || c.outcome == Outcome.OutOfBounds {
      var k := EndingTurn(hwaddr, xid, garbage, events);
      TurnEndsExactly(Run(hwaddr, xid, garbage, events[..k]), hwaddr, events[k]);
      assert c.outcome == Failed ==> FailsAt(hwaddr, xid, garbage, events, k);
      assert c.outcome == Outcome.OutOfBounds ==> OverrunsAt(hwaddr, xid, garbage, events, k);
    }
    forall k | FailsAt(hwaddr, xid, garbage, events, k) || OverrunsAt(hwaddr, xid, garbage, events, k)
      ensures c.outcome == if FailsAt(hwaddr, xid, garbage, events, k) then Failed else Outcome.OutOfBounds
    {
      TurnEndsExactly(Run(hwaddr, xid, garbage, events[..k]), hwaddr, events[k]);
      EndsHere(hwaddr, xid, garbage, events, k);
    }
  }

  ghost predicate FailsAt(hwaddr: seq<Byte>, xid: Word32, garbage: DhcpInfo, events: seq<Event>, k: int)
    requires |hwaddr| == 6 && ValidEvents(events)
  {
    && 0 <= k < |events| && Run(hwaddr, xid, garbage, events[..k]).outcome == Running
    && (events[k] == PollFailed || events[k] == ReadFailed(true))
  }

  ghost predicate OverrunsAt(hwaddr: seq<Byte>, xid: Word32, garbage: DhcpInfo, events: seq<Event>, k: int)
    requires |hwaddr| == 6 && ValidEvents(events)
  {
    && 0 <= k < |events| && Run(hwaddr, xid, garbage, events[..k]).outcome == Running
    && events[k].Arrival? && events[k].Valid() && Receive(events[k].packet, events[k].nread) == Received.OutOfBounds
  }

  lemma EndsHere(hwaddr: seq<Byte>, xid: Word32, garbage: DhcpInfo, events: seq<Event>, k: nat)
    requires |hwaddr| == 6 && ValidEvents(events) && k < |events|
    requires Step(Run(hwaddr, xid, garbage, events[..k]), hwaddr, events[k]).outcome != Running
    ensures Run(hwaddr, xid, garbage, events).outcome
         == Step(Run(hwaddr, xid, garbage, events[..k]), hwaddr, events[k]).outcome
  {
    hide Step, Start, RunFrom;
    RunStep(Start(hwaddr, xid, garbage), hwaddr, events, k);
    EndedRunStays(Start(hwaddr, xid, garbage), hwaddr, events, k + 1);
  }

  /** Every run that ends by ACK has sent a REQUEST, and configured the decoding of an
      ACK delivered to it that answers the REQUEST's transaction. */
  lemma RunEndsByAck(hwaddr: seq<Byte>, xid: Word32, garbage: DhcpInfo, events: seq<Event>, info: DhcpInfo)
    requires |hwaddr| == 6 && ValidEvents(events)
    requires Run(hwaddr, xid, garbage, events).outcome == Acked(info)
    ensures exists k | 0 <= k < |events| && Delivers(events[k]) ::
              && ReplyTo(Delivered(events[k]), Wrap32(xid + 1), hwaddr)
              && info == Decode(Delivered(events[k])) && info.typ == DHCPACK
              && Run(hwaddr, xid, garbage, events[..k]).phase == Requesting
              && Count(Run(hwaddr, xid, garbage, events[..k]).log, Requesting) > 0
  {
    var k := EndingTurn(hwaddr, xid, garbage, events);
    InvAlways(hwaddr, xid, garbage, events[..k]);
    EndsByReplyExactly(Run(hwaddr, xid, garbage, events[..k]), hwaddr, xid, events[k], info);
    assert Delivers(events[k]);
  }

  /** The message of events[k] is the last one delivered and is what info was decoded
      from; while selecting, it was not a valid OFFER. */
  ghost predicate IsSource(c: Client, hwaddr: seq<Byte>, xid: Word32, events: seq<Event>, k: nat) {
    && k < |events| && Delivers(events[k])
    && c.info == Decode(Delivered(events[k]))
    && (forall j | k < j < |events| :: !Delivers(events[j]))
    && (c.phase == Selecting && c.info.typ == DHCPOFFER ==> !ReplyTo(Delivered(events[k]), xid, hwaddr))
  }

  ghost predicate InfoIsLast(c: Client, hwaddr: seq<Byte>, xid: Word32, garbage: DhcpInfo, events: seq<Event>) {
    || (c.info == garbage.(typ := 0) && forall e | e in events :: !Delivers(e))
    || (exists k: nat :: IsSource(c, hwaddr, xid, events, k))
  }

  lemma SourceKept(c: Client, d: Client, hwaddr: seq<Byte>, xid: Word32, events: seq<Event>, ev: Event, k: nat)
    requires IsSource(c, hwaddr, xid, events, k)
    requires !Delivers(ev) && d.info == c.info && d.phase == c.phase
    ensures IsSource(d, hwaddr, xid, events + [ev], k)
  {
    assert (events + [ev])[k] == events[k];
  }

  lemma NewSource(c: Client, hwaddr: seq<Byte>, xid: Word32, events: seq<Event>, ev: Event)
    requires |hwaddr| == 6 && Inv(c, hwaddr, xid) && c.outcome == Running && Delivers(ev)
    ensures IsSource(Step(c, hwaddr, ev), hwaddr, xid, events + [ev], |events|)
  {
    hide Decode, Discover, Request, OnWire, Receive, OwnMessage, Count, Level;
    CurrentFields(c, hwaddr, xid);
    assert (events + [ev])[|events|] == ev;
  }

  lemma InfoStep(c: Client, hwaddr: seq<Byte>, xid: Word32, garbage: DhcpInfo, events: seq<Event>, ev: Event)
    requires |hwaddr| == 6 && ev.Valid()
    requires Inv(c, hwaddr, xid) && c.outcome == Running && InfoIsLast(c, hwaddr, xid, garbage, events)
    requires Step(c, hwaddr, ev).outcome == Running
    ensures InfoIsLast(Step(c, hwaddr, ev), hwaddr, xid, garbage, events + [ev])
  {
    var d := Step(c, hwaddr, ev);
    if Delivers(ev) {
      NewSource(c, hwaddr, xid, events, ev);
    } else {
      assert d.info == c.info && d.phase == c.phase;
      if k: nat :| IsSource(c, hwaddr, xid, events, k) {
        SourceKept(c, d, hwaddr, xid, events, ev, k);
      }
    }
  }

  lemma {:induction false} InfoProvenance(hwaddr: seq<Byte>, xid: Word32, garbage: DhcpInfo, events: seq<Event>)
    requires |hwaddr| == 6 && ValidEvents(events)
    requires Run(hwaddr, xid, garbage, events).outcome == Running
    ensures InfoIsLast(Run(hwaddr, xid, garbage, events), hwaddr, xid, garbage, events)
  {
    if events != [] {
      var last := |events| - 1;
      var before := events[..last];
      InfoProvenance(hwaddr, xid, garbage, before);
      InvAlways(hwaddr, xid, garbage, before);
      InfoStep(Run(hwaddr, xid, garbage, before), hwaddr, xid, garbage, before, events[last]);
      assert before + [events[last]] == events;
    }
  }

  /** An OFFER that answers the client's DISCOVER. */
  predicate GenuineOffer(m: seq<Byte>, xid: Word32, hwaddr: seq<Byte>) {
    ReplyTo(m, xid, hwaddr) && Decode(m).typ == DHCPOFFER
  }

  /** A run that falls back is ended by turn n, and events[k] is its last delivery. */
  ghost predicate FallsBackOn(hwaddr: seq<Byte>, xid: Word32, garbage: DhcpInfo, events: seq<Event>, info: DhcpInfo,
                              n: nat, k: nat)
    requires |hwaddr| == 6 && ValidEvents(events)
  {
    && k < n < |events| && events[n] == Timeout && Delivers(events[k])
    && (forall j | k < j < n :: !Delivers(events[j]))
    && Run(hwaddr, xid, garbage, events[..n]).outcome == Running
    && Run(hwaddr, xid, garbage, events[..n + 1]).outcome == FellBack(info)
    && info == Decode(Delivered(events[k])) && info.typ == DHCPOFFER
  }

  /** Every run that falls back configures the decoding of the last message delivered
      before the final timeout. That message is an OFFER to this client if and only if the
      run had left Selecting and the message answers the DISCOVER. */
  lemma RunFallsBack(hwaddr: seq<Byte>, xid: Word32, garbage: DhcpInfo, events: seq<Event>, info: DhcpInfo)
    returns (n: nat, k: nat)
    requires |hwaddr| == 6 && ValidEvents(events)
    requires Run(hwaddr, xid, garbage, events).outcome == FellBack(info)
    ensures FallsBackOn(hwaddr, xid, garbage, events, info, n, k)
    ensures GenuineOffer(Delivered(events[k]), xid, hwaddr)
       <==> Run(hwaddr, xid, garbage, events[..n]).phase == Requesting
            && ReplyTo(Delivered(events[k]), xid, hwaddr)
  {
    hide Start, Step, Decode, ReplyTo, RunFrom;
    n := EndingTurn(hwaddr, xid, garbage, events);
    var c := Run(hwaddr, xid, garbage, events[..n]);
    FallbackTurn(c, hwaddr, events[n], info);
    RunStep(Start(hwaddr, xid, garbage), hwaddr, events, n);
    InfoProvenance(hwaddr, xid, garbage, events[..n]);
    k :| IsSource(c, hwaddr, xid, events[..n], k);
    SourceOfPrefix(c, hwaddr, xid, events, n, k);
  }

  /** Turn a accepted a genuine OFFER and moved the client to Requesting. */
  ghost predicate AcceptedAt(hwaddr: seq<Byte>, xid: Word32, garbage: DhcpInfo, events: seq<Event>, a: nat)
    requires |hwaddr| == 6 && ValidEvents(events)
  {
    && a < |events| && Delivers(events[a]) && GenuineOffer(Delivered(events[a]), xid, hwaddr)
    && Run(hwaddr, xid, garbage, events[..a]).phase == Selecting
    && Run(hwaddr, xid, garbage, events[..a]).outcome == Running
    && Run(hwaddr, xid, garbage, events[..a + 1]).phase == Requesting
  }

  lemma LeavesSelecting(c: Client, hwaddr: seq<Byte>, xid: Word32, ev: Event)
    requires |hwaddr| == 6 && Inv(c, hwaddr, xid) && ev.Valid() && c.phase == Selecting
    ensures Step(c, hwaddr, ev).phase == Requesting
       <==> c.outcome == Running && Delivers(ev) && GenuineOffer(Delivered(ev), xid, hwaddr)
  {
    hide Decode, Discover, Request, OnWire, Receive, OwnMessage, Count, Level;
    CurrentFields(c, hwaddr, xid);
  }

  lemma StartSelects(hwaddr: seq<Byte>, xid: Word32, garbage: DhcpInfo)
    requires |hwaddr| == 6
    ensures Start(hwaddr, xid, garbage).phase == Selecting
  {
  }

  /** A run is in Requesting only because some turn accepted a genuine OFFER. */
  lemma {:induction false} RequestingAfterOffer(hwaddr: seq<Byte>, xid: Word32, garbage: DhcpInfo, events: seq<Event>)
    returns (a: nat)
    requires |hwaddr| == 6 && ValidEvents(events)
    requires Run(hwaddr, xid, garbage, events).phase == Requesting
    ensures AcceptedAt(hwaddr, xid, garbage, events, a)
  {
    hide Decode, ReplyTo, Step, Inv, Receive;
    var last := |events| - 1;
    var before := events[..last];
    StartSelects(hwaddr, xid, garbage);
    if Run(hwaddr, xid, garbage, before).phase == Requesting {
      a := RequestingAfterOffer(hwaddr, xid, garbage, before);
      assert before[..a] == events[..a] && before[..a + 1] == events[..a + 1] && before[a] == events[a];
    } else {
      a := last;
      InvAlways(hwaddr, xid, garbage, before);
      LeavesSelecting(Run(hwaddr, xid, garbage, before), hwaddr, xid, events[last]);
      assert events[..last + 1] == events;
    }
  }

  /** If nothing is delivered after the accepted OFFER, a fallback configures it. */
  lemma SilenceAfterOffer(hwaddr: seq<Byte>, xid: Word32, garbage: DhcpInfo, events: seq<Event>, info: DhcpInfo,
                          a: nat)
    requires |hwaddr| == 6 && ValidEvents(events)
    requires Run(hwaddr, xid, garbage, events).outcome == FellBack(info)
    requires AcceptedAt(hwaddr, xid, garbage, events, a)
    requires forall j | a < j < |events| :: !Delivers(events[j])
    ensures info == Decode(Delivered(events[a]))
  {
    hide Run, GenuineOffer, Decode, Receive;
    var n, k := RunFallsBack(hwaddr, xid, garbage, events, info);
    RunningBefore(hwaddr, xid, garbage, events, n, a);
    assert k == a;
  }

  /** The turn that ends a run comes after all that find it running. */
  lemma RunningBefore(hwaddr: seq<Byte>, xid: Word32, garbage: DhcpInfo, events: seq<Event>, n: nat, a: nat)
    requires |hwaddr| == 6 && ValidEvents(events) && a < |events| && n < |events|
    requires Run(hwaddr, xid, garbage, events[..n + 1]).outcome != Running
    requires Run(hwaddr, xid, garbage, events[..a]).outcome == Running
    ensures a <= n
  {
    if a > n {
      assert events[..a][..n + 1] == events[..n + 1];
      EndedRunStays(Start(hwaddr, xid, garbage), hwaddr, events[..a], n + 1);
    }
  }

  lemma FallbackTurn(c: Client, hwaddr: seq<Byte>, ev: Event, info: DhcpInfo)
    requires |hwaddr| == 6 && ev.Valid() && c.outcome == Running
    ensures Step(c, hwaddr, ev).outcome == FellBack(info)
       <==> ev == Timeout && c.timeout >= TIMEOUT_MAX && info == c.info && info.typ == DHCPOFFER
  {
  }

  // ---------- what a REQUEST asks for ----------

  /** The i-th message was sent in turn n, and events[k] is the last delivery up to then:
      the message is a REQUEST for what that delivery says. */
  ghost predicate AsksForDelivery(hwaddr: seq<Byte>, xid: Word32, garbage: DhcpInfo, events: seq<Event>,
                                  i: nat, n: nat, k: nat)
    requires |hwaddr| == 6 && ValidEvents(events)
  {
    && k <= n < |events| && Delivers(events[k])
    && (forall j | k < j <= n :: !Delivers(events[j]))
    && |Run(hwaddr, xid, garbage, events[..n]).log| == i
    && |Run(hwaddr, xid, garbage, events[..n + 1]).log| == i + 1
    && i < |Run(hwaddr, xid, garbage, events).log|
    && var info := Decode(Delivered(events[k]));
       Run(hwaddr, xid, garbage, events).log[i].message
       == Request(hwaddr, Wrap32(xid + 1), info.ipaddr, info.serveraddr)
  }

  /** A turn sends at most one message; a REQUEST takes its addresses from info. */
  lemma LogStep(c: Client, hwaddr: seq<Byte>, ev: Event)
    requires |hwaddr| == 6 && ev.Valid()
    ensures var d := Step(c, hwaddr, ev);
            d.log == c.log
            || (&& d.outcome == Running && |d.log| == |c.log| + 1 && d.log[..|c.log|] == c.log
                && d.log[|c.log|].phase == d.phase
                && (d.phase == Requesting ==>
                      d.log[|c.log|].message == Request(hwaddr, d.xid, d.info.ipaddr, d.info.serveraddr)))
  {
    hide Decode, Discover, Request, OnWire, IsValidReply, Receive;
  }

  /** Every REQUEST of a run, retransmissions included, asks the server and the address
      named by the last message delivered before it was sent, be it a stray one. */
  lemma {:induction false} RequestAsksForLast(hwaddr: seq<Byte>, xid: Word32, garbage: DhcpInfo, events: seq<Event>,
                                              i: nat)
    returns (n: nat, k: nat)
    requires |hwaddr| == 6 && ValidEvents(events)
    requires i < |Run(hwaddr, xid, garbage, events).log|
    requires Run(hwaddr, xid, garbage, events).log[i].phase == Requesting
    ensures AsksForDelivery(hwaddr, xid, garbage, events, i, n, k)
  {
    hide Decode, Request, Step, Start;
    var last := |events| - 1;
    if last < 0 {
      StartLog(hwaddr, xid, garbage);
    } else {
      var before := events[..last];
      var b, c := Run(hwaddr, xid, garbage, before), Run(hwaddr, xid, garbage, events);
      assert c == Step(b, hwaddr, events[last]);
      LogStep(b, hwaddr, events[last]);
      assert events[..last + 1] == events;
      if i < |b.log| {
        assert c.log[i] == b.log[i];
        n, k := RequestAsksForLast(hwaddr, xid, garbage, before, i);
        AsksLater(hwaddr, xid, garbage, events, i, n, k);
      } else {
        n := last;
        k := LastDelivery(hwaddr, xid, garbage, events);
        InvXid(hwaddr, xid, garbage, events);
      }
    }
  }

  lemma StartLog(hwaddr: seq<Byte>, xid: Word32, garbage: DhcpInfo)
    requires |hwaddr| == 6
    ensures var log := Start(hwaddr, xid, garbage).log; |log| == 1 && log[0].phase == Selecting
  {
  }

  lemma AsksLater(hwaddr: seq<Byte>, xid: Word32, garbage: DhcpInfo, events: seq<Event>, i: nat, n: nat, k: nat)
    requires |hwaddr| == 6 && ValidEvents(events) && events != []
    requires AsksForDelivery(hwaddr, xid, garbage, events[..|events| - 1], i, n, k)
    requires i < |Run(hwaddr, xid, garbage, events).log|
    requires Run(hwaddr, xid, garbage, events).log[i] == Run(hwaddr, xid, garbage, events[..|events| - 1]).log[i]
    ensures AsksForDelivery(hwaddr, xid, garbage, events, i, n, k)
  {
    hide Run, Decode, Request;
    var before := events[..|events| - 1];
    assert before[..n] == events[..n] && before[..n + 1] == events[..n + 1];
    assert forall j | 0 <= j <= n :: before[j] == events[j];
  }

  lemma LastDelivery(hwaddr: seq<Byte>, xid: Word32, garbage: DhcpInfo, events: seq<Event>) returns (k: nat)
    requires |hwaddr| == 6 && ValidEvents(events)
    requires var c := Run(hwaddr, xid, garbage, events); c.outcome == Running && c.phase == Requesting
    ensures k < |events| && Delivers(events[k])
    ensures Run(hwaddr, xid, garbage, events).info == Decode(Delivered(events[k]))
    ensures forall j | k < j < |events| :: !Delivers(events[j])
  {
    var a := RequestingAfterOffer(hwaddr, xid, garbage, events);
    InfoProvenance(hwaddr, xid, garbage, events);
    hide Run, Decode, ReplyTo;
    var c := Run(hwaddr, xid, garbage, events);
    assert events[a] in events;
    k :| IsSource(c, hwaddr, xid, events, k);
  }

  lemma InvXid(hwaddr: seq<Byte>, xid: Word32, garbage: DhcpInfo, events: seq<Event>)
    requires |hwaddr| == 6 && ValidEvents(events)
    ensures var c := Run(hwaddr, xid, garbage, events); c.phase == Requesting ==> c.xid == Wrap32(xid + 1)
  {
    InvAlways(hwaddr, xid, garbage, events);
  }

  lemma SourceOfPrefix(c: Client, hwaddr: seq<Byte>, xid: Word32, events: seq<Event>, n: nat, k: nat)
    requires n <= |events| && IsSource(c, hwaddr, xid, events[..n], k)
    ensures k < n && Delivers(events[k]) && c.info == Decode(Delivered(events[k]))
    ensures forall j | k < j < n :: !Delivers(events[j])
    ensures c.phase == Selecting && c.info.typ == DHCPOFFER ==> !ReplyTo(Delivered(events[k]), xid, hwaddr)
  {
    assert events[..n][k] == events[k];
    forall j | k < j < n
      ensures !Delivers(events[j])
    {
      assert events[..n][j] == events[j];
    }
  }
}
