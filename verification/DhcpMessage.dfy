/** The DISCOVER and REQUEST builders of dhcpmsg.c and what a decoder makes of them. */
module DhcpMessage {
  import opened Bytes
  import opened DhcpOptions

  const OP_BOOTREQUEST: Byte := 1
  const OP_BOOTREPLY: Byte := 2
  const HTYPE_ETHER: Byte := 1
  const FLAGS_BROADCAST: Word16 := 0x8000
  const HLEN: Byte := 6

  /** The fixed part of a client message (section 2 of RFC 2131): only op, htype, hlen,
      xid, flags and chaddr are not zero. */
  function FixedPart(hwaddr: seq<Byte>, xid: seq<Byte>): (h: seq<Byte>)
    requires |hwaddr| == 6 && |xid| == 4
    ensures |h| == FIXED_SIZE
  {
    [OP_BOOTREQUEST, HTYPE_ETHER, HLEN, 0] + xid + [0, 0] + Be16(FLAGS_BROADCAST)
    + Zeros(16) + hwaddr + Zeros(202)
  }

  function ParameterList(): OptionItem {
    Option(OPT_PARAMETER_LIST, [OPT_SUBNET_MASK, OPT_GATEWAY, OPT_DNS, OPT_BROADCAST_ADDR])
  }

  function DiscoverItems(): seq<OptionItem> {
    [Option(OPT_MESSAGE_TYPE, [DHCPDISCOVER]), ParameterList()]
  }

  function RequestItems(ipaddr: seq<Byte>, serveraddr: seq<Byte>): seq<OptionItem> {
    [Option(OPT_MESSAGE_TYPE, [DHCPREQUEST])] + ([ParameterList()] + AddressItems(ipaddr, serveraddr))
  }

  function AddressItems(ipaddr: seq<Byte>, serveraddr: seq<Byte>): seq<OptionItem> {
    [Option(OPT_REQUESTED_IP, ipaddr), Option(OPT_SERVER_ID, serveraddr)]
  }

  function ClientMessage(hwaddr: seq<Byte>, xid: Word32, items: seq<OptionItem>): seq<Byte>
    requires |hwaddr| == 6 && Writable(items)
  {
    FixedPart(hwaddr, Le32(xid)) + COOKIE + (Encode(items) + [OPT_END])
  }

  function Discover(hwaddr: seq<Byte>, xid: Word32): (m: seq<Byte>)
    requires |hwaddr| == 6
    ensures |m| == 250
  {
    DiscoverEncoding();
    ClientMessage(hwaddr, xid, DiscoverItems())
  }

  function Request(hwaddr: seq<Byte>, xid: Word32, ipaddr: Word32, serveraddr: Word32): (m: seq<Byte>)
    requires |hwaddr| == 6
    ensures |m| == 262
  {
    RequestEncoding(Le32(ipaddr), Le32(serveraddr));
    ClientMessage(hwaddr, xid, RequestItems(Le32(ipaddr), Le32(serveraddr)))
  }

  lemma EncodeStep(item: OptionItem, rest: seq<OptionItem>)
    requires Writable(rest)
    requires item.Option? ==> item.code != OPT_PAD && item.code != OPT_END && |item.value| <= 255
    ensures Writable([item] + rest)
    ensures Encode([item] + rest) == EncodeItem(item) + Encode(rest)
  {
    assert ([item] + rest)[1..] == rest;
  }

  lemma DiscoverEncoding()
    ensures Writable(DiscoverItems())
    ensures Encode(DiscoverItems()) == [53, 1, 1, 55, 4, 1, 3, 6, 28]
  {
    EncodeStep(ParameterList(), []);
    EncodeStep(Option(OPT_MESSAGE_TYPE, [DHCPDISCOVER]), [ParameterList()] + []);
    assert DiscoverItems() == [Option(OPT_MESSAGE_TYPE, [DHCPDISCOVER])] + ([ParameterList()] + []);
  }

  lemma AddressEncoding(ipaddr: seq<Byte>, serveraddr: seq<Byte>)
    requires |ipaddr| == |serveraddr| == 4
    ensures var items := AddressItems(ipaddr, serveraddr);
            Writable(items) && Encode(items) == ([50, 4] + ipaddr) + ([54, 4] + serveraddr)
  {
    var c, d := Option(OPT_REQUESTED_IP, ipaddr), Option(OPT_SERVER_ID, serveraddr);
    EncodeStep(d, []);
    EncodeStep(c, [d] + []);
    assert AddressItems(ipaddr, serveraddr) == [c] + ([d] + []);
  }

  lemma RequestEncoding(ipaddr: seq<Byte>, serveraddr: seq<Byte>)
    requires |ipaddr| == |serveraddr| == 4
    ensures Writable(RequestItems(ipaddr, serveraddr))
    ensures Encode(RequestItems(ipaddr, serveraddr))
         == [53, 1, 3, 55, 4, 1, 3, 6, 28] + ([50, 4] + ipaddr) + ([54, 4] + serveraddr)
  {
    var a, b, rest := Option(OPT_MESSAGE_TYPE, [DHCPREQUEST]), ParameterList(), AddressItems(ipaddr, serveraddr);
    AddressEncoding(ipaddr, serveraddr);
    EncodeStep(b, rest);
    EncodeStep(a, [b] + rest);
    var lead: seq<Byte> := [53, 1, 3, 55, 4, 1, 3, 6, 28];
    assert EncodeItem(a) + EncodeItem(b) == lead;
    hide EncodeItem, Encode, Writable;
    Regroup(EncodeItem(a), EncodeItem(b), Encode(rest));
    Regroup(lead, [50, 4] + ipaddr, [54, 4] + serveraddr);
  }

  // ---------- the code ----------

  method InitFixedPart(msg: array<Byte>, hwaddr: seq<Byte>, xid: seq<Byte>)
    requires msg.Length == MSG_SIZE && |hwaddr| == 6 && |xid| == 4
    modifies msg
    ensures msg[..FIXED_SIZE] == FixedPart(hwaddr, xid)
  {
    forall i | 0 <= i < msg.Length {
      msg[i] := 0;
    }
    msg[0] := OP_BOOTREQUEST;
    msg[1] := HTYPE_ETHER;
    msg[2] := HLEN;
    msg[3] := 0;
    assert msg[..4] == [OP_BOOTREQUEST, HTYPE_ETHER, HLEN, 0];
    assert forall i | 4 <= i < msg.Length :: msg[i] == 0;
    StoreBe16(msg, 10, FLAGS_BROADCAST);
    StoreBytes(msg, 4, xid);
    StoreBytes(msg, 28, hwaddr);
    assert msg[..4] == [OP_BOOTREQUEST, HTYPE_ETHER, HLEN, 0] && msg[4..8] == xid && msg[8..10] == [0, 0];
    assert msg[10..12] == Be16(FLAGS_BROADCAST) && msg[12..28] == Zeros(16) && msg[28..34] == hwaddr;
    assert msg[34..FIXED_SIZE] == Zeros(202);
    JoinFixedPart(msg[..], hwaddr, xid);
    assert msg[..][..FIXED_SIZE] == msg[..FIXED_SIZE];
  }

  lemma JoinFixedPart(m: seq<Byte>, hwaddr: seq<Byte>, xid: seq<Byte>)
    requires |m| >= FIXED_SIZE && |hwaddr| == 6 && |xid| == 4
    requires m[..4] == [OP_BOOTREQUEST, HTYPE_ETHER, HLEN, 0] && m[4..8] == xid && m[8..10] == [0, 0]
    requires m[10..12] == Be16(FLAGS_BROADCAST) && m[12..28] == Zeros(16) && m[28..34] == hwaddr
    requires m[34..FIXED_SIZE] == Zeros(202)
    ensures m[..FIXED_SIZE] == FixedPart(hwaddr, xid)
  {
    assert m[..FIXED_SIZE]
        == m[..4] + m[4..8] + m[8..10] + m[10..12] + m[12..28] + m[28..34] + m[34..FIXED_SIZE];
  }

  /** Fills the fixed part, the cookie and the message type; x is where the next option
      goes. */
  method InitDhcpMsg(msg: array<Byte>, typ: Byte, hwaddr: seq<Byte>, xid: Word32) returns (x: nat)
    requires msg.Length == MSG_SIZE && |hwaddr| == 6
    modifies msg
    ensures x == 243
    ensures msg[..x] == FixedPart(hwaddr, Le32(xid)) + COOKIE + [OPT_MESSAGE_TYPE, 1, typ]
  {
    InitFixedPart(msg, hwaddr, Le32(xid));
    ghost var fixed := msg[..FIXED_SIZE];
    x := FIXED_SIZE;
    msg[x] := 0x63; x := x + 1;
    msg[x] := 0x82; x := x + 1;
    msg[x] := 0x53; x := x + 1;
    msg[x] := 0x63; x := x + 1;
    msg[x] := OPT_MESSAGE_TYPE; x := x + 1;
    msg[x] := 1; x := x + 1;
    msg[x] := typ; x := x + 1;
    assert msg[..x] == fixed + [0x63, 0x82, 0x53, 0x63] + [OPT_MESSAGE_TYPE, 1, typ];
  }

  method PutParameterList(msg: array<Byte>, at: nat) returns (x: nat)
    requires at + 6 <= msg.Length
    modifies msg
    ensures x == at + 6
    ensures msg[..x] == old(msg[..at]) + [55, 4, 1, 3, 6, 28]
  {
    x := at;
    msg[x] := OPT_PARAMETER_LIST; x := x + 1;
    msg[x] := 4; x := x + 1;
    msg[x] := OPT_SUBNET_MASK; x := x + 1;
    msg[x] := OPT_GATEWAY; x := x + 1;
    msg[x] := OPT_DNS; x := x + 1;
    msg[x] := OPT_BROADCAST_ADDR; x := x + 1;
  }

  method PutWordOption(msg: array<Byte>, at: nat, code: Byte, w: Word32) returns (x: nat)
    requires at + 6 <= msg.Length
    modifies msg
    ensures x == at + 6
    ensures msg[..x] == old(msg[..at]) + ([code, 4] + Le32(w))
  {
    hide Le32;
    msg[at] := code;
    msg[at + 1] := 4;
    StoreBytes(msg, at + 2, Le32(w));
    x := at + 6;
    assert msg[..x] == msg[..at] + ([msg[at], msg[at + 1]] + msg[at + 2..at + 6]);
    assert msg[..at] == old(msg[..at]);
  }

  method InitDhcpDiscoverMsg(msg: array<Byte>, hwaddr: seq<Byte>, xid: Word32) returns (size: nat)
    requires msg.Length == MSG_SIZE && |hwaddr| == 6
    modifies msg
    ensures size == 250 && msg[..size] == Discover(hwaddr, xid)
  {
    hide FixedPart, Encode, Le32;
    var x := InitDhcpMsg(msg, DHCPDISCOVER, hwaddr, xid);
    x := PutParameterList(msg, x);
    ghost var front := msg[..x];
    msg[x] := OPT_END; x := x + 1;
    size := FIXED_SIZE + (x - FIXED_SIZE);
    assert msg[..size] == front + [OPT_END];
    DiscoverEncoding();
  }

  method InitDhcpRequestMsg(msg: array<Byte>, hwaddr: seq<Byte>, xid: Word32, ipaddr: Word32, serveraddr: Word32)
    returns (size: nat)
    requires msg.Length == MSG_SIZE && |hwaddr| == 6
    modifies msg
    ensures size == 262 && msg[..size] == Request(hwaddr, xid, ipaddr, serveraddr)
  {
    hide FixedPart, Encode, Le32, Request;
    var x := InitDhcpMsg(msg, DHCPREQUEST, hwaddr, xid);
    ghost var fixed := FixedPart(hwaddr, Le32(xid)) + COOKIE;
    x := PutParameterList(msg, x);
    x := PutWordOption(msg, x, OPT_REQUESTED_IP, ipaddr);
    x := PutWordOption(msg, x, OPT_SERVER_ID, serveraddr);
    ghost var front := msg[..x];
    msg[x] := OPT_END; x := x + 1;
    size := FIXED_SIZE + (x - FIXED_SIZE);
    assert msg[..size] == front + [OPT_END];
    RequestBytes(hwaddr, xid, ipaddr, serveraddr);
  }

  lemma RequestBytes(hwaddr: seq<Byte>, xid: Word32, ipaddr: Word32, serveraddr: Word32)
    requires |hwaddr| == 6
    ensures Request(hwaddr, xid, ipaddr, serveraddr)
         == FixedPart(hwaddr, Le32(xid)) + COOKIE + [OPT_MESSAGE_TYPE, 1, DHCPREQUEST] + [55, 4, 1, 3, 6, 28]
            + ([OPT_REQUESTED_IP, 4] + Le32(ipaddr)) + ([OPT_SERVER_ID, 4] + Le32(serveraddr)) + [OPT_END]
  {
    hide FixedPart, Encode, Le32, RequestItems;
    var ip, server := Le32(ipaddr), Le32(serveraddr);
    RequestEncoding(ip, server);
    Reassociate(FixedPart(hwaddr, Le32(xid)) + COOKIE, ip, server);
  }

  lemma Reassociate(fixed: seq<Byte>, ip: seq<Byte>, server: seq<Byte>)
    ensures fixed + (([53, 1, 3, 55, 4, 1, 3, 6, 28] + ([50, 4] + ip) + ([54, 4] + server)) + [OPT_END])
         == fixed + [OPT_MESSAGE_TYPE, 1, DHCPREQUEST] + [55, 4, 1, 3, 6, 28]
            + ([OPT_REQUESTED_IP, 4] + ip) + ([OPT_SERVER_ID, 4] + server) + [OPT_END]
  {
    var lead: seq<Byte> := [OPT_MESSAGE_TYPE, 1, DHCPREQUEST];
    assert lead + [55, 4, 1, 3, 6, 28] == [53, 1, 3, 55, 4, 1, 3, 6, 28];
  }

  // ---------- the messages, byte by byte ----------

  /** The fixed part and the options of both messages, as section 2 of RFC 2131 lays them
      out: BOOTREQUEST over Ethernet, the transaction id, the broadcast flag, the hardware
      address, zeros everywhere else. */
  predicate IsBootRequest(m: seq<Byte>, hwaddr: seq<Byte>, xid: Word32, options: seq<Byte>) {
    && |m| >= 240
    && m[..4] == [1, 1, 6, 0]
    && m[4..8] == [xid % 256, xid / 256 % 256, xid / 256 / 256 % 256, xid / 256 / 256 / 256]
    && m[8..12] == [0, 0, 0x80, 0]
    && (forall i | 12 <= i < 236 && !(28 <= i < 34) :: m[i] == 0)
    && m[28..34] == hwaddr
    && m[236..240] == [99, 130, 83, 99]
    && m[240..] == options
  }

  lemma ClientMessageBytes(hwaddr: seq<Byte>, xid: Word32, items: seq<OptionItem>)
    requires |hwaddr| == 6 && Writable(items)
    ensures IsBootRequest(ClientMessage(hwaddr, xid, items), hwaddr, xid, Encode(items) + [255])
  {
    var m, h := ClientMessage(hwaddr, xid, items), FixedPart(hwaddr, Le32(xid));
    hide Encode;
    assert m[..236] == h && m[236..240] == COOKIE && m[240..] == Encode(items) + [255];
    FixedBytes(hwaddr, Le32(xid));
    hide FixedPart;
    assert m[..4] == h[..4] && m[4..8] == h[4..8] && m[8..12] == h[8..12] && m[28..34] == h[28..34];
    assert forall i | 0 <= i < 236 :: m[i] == h[i];
  }

  lemma FixedBytes(hwaddr: seq<Byte>, xid: seq<Byte>)
    requires |hwaddr| == 6 && |xid| == 4
    ensures var h := FixedPart(hwaddr, xid);
            && h[..4] == [1, 1, 6, 0] && h[4..8] == xid && h[8..12] == [0, 0, 0x80, 0] && h[28..34] == hwaddr
            && (forall i | 12 <= i < 236 && !(28 <= i < 34) :: h[i] == 0)
  {
  }

  /** A DISCOVER asks for mask, router, name servers and broadcast address. */
  lemma DiscoverIs(hwaddr: seq<Byte>, xid: Word32)
    requires |hwaddr| == 6
    ensures IsBootRequest(Discover(hwaddr, xid), hwaddr, xid, [53, 1, 1, 55, 4, 1, 3, 6, 28, 255])
  {
    hide IsBootRequest, Encode;
    DiscoverEncoding();
    ClientMessageBytes(hwaddr, xid, DiscoverItems());
    assert [53, 1, 1, 55, 4, 1, 3, 6, 28] + [255] == [53, 1, 1, 55, 4, 1, 3, 6, 28, 255];
  }

  /** A REQUEST also names the address wanted and the server chosen. */
  lemma RequestIs(hwaddr: seq<Byte>, xid: Word32, ipaddr: Word32, serveraddr: Word32)
    requires |hwaddr| == 6
    ensures IsBootRequest(Request(hwaddr, xid, ipaddr, serveraddr), hwaddr, xid,
                          [53, 1, 3, 55, 4, 1, 3, 6, 28] + ([50, 4] + Le32(ipaddr)) + ([54, 4] + Le32(serveraddr))
                          + [255])
  {
    hide IsBootRequest, Encode, Le32;
    RequestEncoding(Le32(ipaddr), Le32(serveraddr));
    ClientMessageBytes(hwaddr, xid, RequestItems(Le32(ipaddr), Le32(serveraddr)));
  }

  // ---------- what the messages say ----------

  /** A message whose options are items, whatever its other fields and trailing bytes. */
  predicate Carries(m: seq<Byte>, items: seq<OptionItem>)
    requires Writable(items)
  {
    HasCookie(m) && Encode(items) + [OPT_END] <= m[OPTIONS_AT..]
  }

  /** For every option list, decoding a message that carries it gives the list's meaning
      and the message's yiaddr, and the dumper visits exactly its options. */
  lemma DecodeCarried(m: seq<Byte>, items: seq<OptionItem>)
    requires Writable(items) && Carries(m, items)
    ensures Decode(m) == FoldItems(items, NO_INFO).(ipaddr := FromLe32(m[16..20]))
    ensures View(m, Walk(m, OPTIONS_AT)) == Options(items)
  {
    EncodingStands(m, OPTIONS_AT, items);
    CodecWalks(m, OPTIONS_AT, items);
    CodecDecodes(m, OPTIONS_AT, items, NO_INFO);
  }

  lemma ClientMessageCarries(hwaddr: seq<Byte>, xid: Word32, items: seq<OptionItem>)
    requires |hwaddr| == 6 && Writable(items)
    ensures Carries(ClientMessage(hwaddr, xid, items), items)
    ensures ClientMessage(hwaddr, xid, items)[16..20] == Zeros(4)
  {
    var m := ClientMessage(hwaddr, xid, items);
    assert m[FIXED_SIZE..OPTIONS_AT] == COOKIE;
    assert m[OPTIONS_AT..] == Encode(items) + [OPT_END];
    var h := FixedPart(hwaddr, Le32(xid));
    assert m[16..20] == h[16..20] == Zeros(4);
  }

  lemma FoldStep(item: OptionItem, rest: seq<OptionItem>, info: DhcpInfo)
    requires item.Option?
    ensures FoldItems([item] + rest, info) == FoldItems(rest, Apply(item.code, item.value, FirstByte(rest), info))
  {
    assert ([item] + rest)[1..] == rest;
  }

  /** Decoding what the builders wrote: the message type, and for a REQUEST the server
      identifier, come back; nothing else is set. */
  lemma DiscoverDecodes(hwaddr: seq<Byte>, xid: Word32)
    requires |hwaddr| == 6
    ensures Decode(Discover(hwaddr, xid)) == NO_INFO.(typ := DHCPDISCOVER)
  {
    DiscoverEncoding();
    ClientMessageCarries(hwaddr, xid, DiscoverItems());
    DecodeCarried(Discover(hwaddr, xid), DiscoverItems());
    var a, b := Option(OPT_MESSAGE_TYPE, [DHCPDISCOVER]), ParameterList();
    assert DiscoverItems() == [a] + ([b] + []);
    FoldStep(a, [b] + [], NO_INFO);
    FoldStep(b, [], NO_INFO.(typ := DHCPDISCOVER));
  }

  lemma RequestDecodes(hwaddr: seq<Byte>, xid: Word32, ipaddr: Word32, serveraddr: Word32)
    requires |hwaddr| == 6
    ensures Decode(Request(hwaddr, xid, ipaddr, serveraddr))
         == NO_INFO.(typ := DHCPREQUEST, serveraddr := serveraddr)
  {
    var ip, server := Le32(ipaddr), Le32(serveraddr);
    RequestEncoding(ip, server);
    ClientMessageCarries(hwaddr, xid, RequestItems(ip, server));
    DecodeCarried(Request(hwaddr, xid, ipaddr, serveraddr), RequestItems(ip, server));
    FoldRequest(ip, server);
  }

  lemma FoldRequest(ip: seq<Byte>, server: seq<Byte>)
    requires |ip| == |server| == 4
    ensures FoldItems(RequestItems(ip, server), NO_INFO)
         == NO_INFO.(typ := DHCPREQUEST, serveraddr := FromLe32(server))
  {
    hide FromLe32, AddressItems;
    var a, b, rest := Option(OPT_MESSAGE_TYPE, [DHCPREQUEST]), ParameterList(), AddressItems(ip, server);
    var info := NO_INFO.(typ := DHCPREQUEST);
    FoldStep(a, [b] + rest, NO_INFO);
    FoldStep(b, rest, info);
    FoldAddresses(ip, server, info);
  }

  lemma FoldAddresses(ipaddr: seq<Byte>, serveraddr: seq<Byte>, info: DhcpInfo)
    requires |ipaddr| == |serveraddr| == 4
    ensures FoldItems(AddressItems(ipaddr, serveraddr), info) == info.(serveraddr := FromLe32(serveraddr))
  {
    var c, d := Option(OPT_REQUESTED_IP, ipaddr), Option(OPT_SERVER_ID, serveraddr);
    assert AddressItems(ipaddr, serveraddr) == [c] + ([d] + []);
    FoldStep(c, [d] + [], info);
    FoldStep(d, [], info);
    assert serveraddr[..4] == serveraddr;
  }
}
