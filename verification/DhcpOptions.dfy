/** The option area of a DHCP message: the decoder, the walker inside the dumper, and
    the codec law that ties both to the option list a sender wrote. */
module DhcpOptions {
  import opened Bytes
  import opened Netmask

  const MSG_SIZE := 1260          // sizeof(dhcp_msg)
  const FIXED_SIZE := 236         // DHCP_MSG_FIXED_SIZE, the offset of options
  const OPTIONS_AT := 240         // after the cookie
  const COOKIE: seq<Byte> := [0x63, 0x82, 0x53, 0x63]

  const OPT_PAD: Byte := 0
  const OPT_SUBNET_MASK: Byte := 1
  const OPT_GATEWAY: Byte := 3
  const OPT_DNS: Byte := 6
  const OPT_BROADCAST_ADDR: Byte := 28
  const OPT_REQUESTED_IP: Byte := 50
  const OPT_LEASE_TIME: Byte := 51
  const OPT_MESSAGE_TYPE: Byte := 53
  const OPT_SERVER_ID: Byte := 54
  const OPT_PARAMETER_LIST: Byte := 55
  const OPT_END: Byte := 255

  const DHCPDISCOVER: Byte := 1
  const DHCPOFFER: Byte := 2
  const DHCPREQUEST: Byte := 3
  const DHCPACK: Byte := 5
  const DHCPNAK: Byte := 6

  /** struct dhcp_info; addresses are the raw 32-bit words, as memcpy leaves them. */
  datatype DhcpInfo = DhcpInfo(typ: Word32, ipaddr: Word32, gateway: Word32, prefixLength: nat,
                               dns1: Word32, dns2: Word32, serveraddr: Word32, lease: Word32)

  const NO_INFO := DhcpInfo(0, 0, 0, 0, 0, 0, 0, 0)

  /** Where a walk over a message finds an option: its code, value offset and length. */
  datatype OptionAt = OptionAt(code: Byte, at: nat, len: nat)

  /** What both loops see at offset x: they stop with two bytes or fewer left, at END,
      and at a length that overruns the message. */
  datatype Item = Stop | Skip | Take(option: OptionAt)

  function ItemAt(m: seq<Byte>, x: nat): (item: Item)
    ensures item.Skip? ==> x < |m|
    ensures item.Take? ==> x + 2 == item.option.at < |m| && item.option.at + item.option.len <= |m|
  {
    if |m| <= x + 2 || m[x] == OPT_END then Stop
    else if m[x] == OPT_PAD then Skip
    else if x + 2 + m[x + 1] > |m| then Stop
    else Take(OptionAt(m[x], x + 2, m[x + 1]))
  }

  /** The options met from offset x on. */
  function Walk(m: seq<Byte>, x: nat): seq<OptionAt>
    decreases |m| - x
  {
    match ItemAt(m, x)
    case Stop => []
    case Skip => Walk(m, x + 1)
    case Take(o) => [o] + Walk(m, o.at + o.len)
  }

  /** The effect of one option on the decoded info. next is the byte that follows the
      length byte of an empty value; only the message type looks at it. */
  function Apply(code: Byte, value: seq<Byte>, next: Byte, info: DhcpInfo): DhcpInfo {
    match code
    case OPT_SUBNET_MASK => if |value| >= 4 then info.(prefixLength := LeadingOnes(FromBe32(value[..4]))) else info
    case OPT_GATEWAY => if |value| >= 4 then info.(gateway := FromLe32(value[..4])) else info
    case OPT_DNS =>
      if |value| >= 8 then info.(dns1 := FromLe32(value[..4]), dns2 := FromLe32(value[4..8]))
      else if |value| >= 4 then info.(dns1 := FromLe32(value[..4]))
      else info
    case OPT_LEASE_TIME => if |value| >= 4 then info.(lease := FromBe32(value[..4])) else info
    case OPT_SERVER_ID => if |value| >= 4 then info.(serveraddr := FromLe32(value[..4])) else info
    case OPT_MESSAGE_TYPE => info.(typ := if |value| > 0 then value[0] else next)
    case _ => info
  }

  function ApplyAt(m: seq<Byte>, o: OptionAt, info: DhcpInfo): DhcpInfo {
    if o.at < |m| && o.at + o.len <= |m|
    then Apply(o.code, m[o.at..o.at + o.len], m[o.at], info)
    else info
  }

  /** Info accumulated by the decoding loop from offset x on. */
  function DecodeFrom(m: seq<Byte>, x: nat, info: DhcpInfo): DhcpInfo
    decreases |m| - x
  {
    match ItemAt(m, x)
    case Stop => info
    case Skip => DecodeFrom(m, x + 1, info)
    case Take(o) => DecodeFrom(m, o.at + o.len, ApplyAt(m, o, info))
  }

  function FoldWalk(m: seq<Byte>, opts: seq<OptionAt>, info: DhcpInfo): DhcpInfo {
    if opts == [] then info else FoldWalk(m, opts[1..], ApplyAt(m, opts[0], info))
  }

  predicate HasCookie(m: seq<Byte>) {
    |m| >= OPTIONS_AT && m[FIXED_SIZE..OPTIONS_AT] == COOKIE
  }

  /** decode_dhcp_msg on the bytes of a message. */
  function Decode(m: seq<Byte>): DhcpInfo {
    if !HasCookie(m) then NO_INFO
    else DecodeFrom(m, OPTIONS_AT, NO_INFO).(ipaddr := FromLe32(m[16..20]))
  }

  // ---------- the code ----------

  method ReadWord(msg: array<Byte>, x: nat) returns (w: Word32)
    requires x + 4 <= msg.Length
    ensures w == FromLe32(msg[x..x + 4])
  {
    w := FromLe32(msg[x..x + 4]);
  }

  /** The switch of decode_dhcp_msg. */
  method ApplyOption(msg: array<Byte>, opt: Byte, x: nat, optlen: nat, info0: DhcpInfo) returns (info: DhcpInfo)
    requires x < msg.Length && x + optlen <= msg.Length
    ensures info == Apply(opt, msg[x..x + optlen], msg[x], info0)
  {
    info := info0;
    ghost var value := msg[x..x + optlen];
    if optlen >= 4 {
      Window(msg[..], x, x + optlen, 0, 4);
    }
    if optlen >= 8 {
      Window(msg[..], x, x + optlen, 4, 8);
    }
    hide FromLe32, Swap32, Le32;
    match opt {
      case OPT_SUBNET_MASK =>
        if optlen >= 4 {
          var mask := ReadWord(msg, x);
          Le32Inverse(msg[x..x + 4]);
          var p := Netmask.Ipv4NetmaskToPrefixLength(mask);
          info := info.(prefixLength := p);
        }
      case OPT_GATEWAY =>
        if optlen >= 4 {
          var w := ReadWord(msg, x);
          info := info.(gateway := w);
        }
      case OPT_DNS =>
        if optlen >= 4 {
          var w := ReadWord(msg, x);
          info := info.(dns1 := w);
        }
        if optlen >= 8 {
          var w := ReadWord(msg, x + 4);
          info := info.(dns2 := w);
        }
      case OPT_LEASE_TIME =>
        if optlen >= 4 {
          var w := ReadWord(msg, x);
          Le32Inverse(msg[x..x + 4]);
          info := info.(lease := Swap32(w));
        }
      case OPT_SERVER_ID =>
        if optlen >= 4 {
          var w := ReadWord(msg, x);
          info := info.(serveraddr := w);
        }
      case OPT_MESSAGE_TYPE =>
        info := info.(typ := msg[x]);
      case _ =>
    }
  }

  method DecodeDhcpMsg(msg: array<Byte>, size: nat) returns (r: int, info: DhcpInfo)
    requires size <= msg.Length == MSG_SIZE
    ensures r == if HasCookie(msg[..size]) then 0 else -1
    ensures info == Decode(msg[..size])
  {
    hide Apply, FromLe32;
    ghost var m := msg[..size];
    info := NO_INFO;
    if size < OPTIONS_AT { return -1, info; }
    var len := size - OPTIONS_AT;
    assert m[FIXED_SIZE..OPTIONS_AT] == [m[236], m[237], m[238], m[239]];
    if msg[236] != 0x63 || msg[237] != 0x82 || msg[238] != 0x53 || msg[239] != 0x63 {
      return -1, info;
    }
    var x := OPTIONS_AT;
    while len > 2
      invariant OPTIONS_AT <= x && x + len == size
      invariant DecodeFrom(m, x, info) == DecodeFrom(m, OPTIONS_AT, NO_INFO)
      decreases len
    {
      ghost var item := ItemAt(m, x);
      var opt := msg[x];
      x := x + 1;
      if opt == OPT_PAD {
        len := len - 1;
        continue;
      }
      if opt == OPT_END {
        assert item == Stop;
        break;
      }
      var optlen: nat := msg[x];
      x := x + 1;
      len := len - 2;
      if optlen > len {
        assert item == Stop;
        break;
      }
      assert item == Take(OptionAt(opt, x, optlen));
      Window(msg[..], 0, size, x, x + optlen);
      info := ApplyOption(msg, opt, x, optlen, info);
      x := x + optlen;
      len := len - optlen;
    }
    var yiaddr := ReadWord(msg, 16);
    Window(msg[..], 0, size, 16, 20);
    info := info.(ipaddr := yiaddr);
    r := 0;
  }

  // ---------- the dumper ----------

  const SNAME_AT := 44
  const FILE_AT := 108

  predicate Unprintable(c: Byte) { c < 32 || c > 127 }

  /** What the dumper leaves of a text field: dots for unprintable characters up to the
      first NUL, and a NUL in the last place. */
  function Cleaned(s: seq<Byte>): (t: seq<Byte>)
    ensures |t| == |s|
  {
    seq(|s|, i requires 0 <= i < |s| =>
      if i == |s| - 1 then 0
      else if Unprintable(s[i]) && 0 !in s[..i + 1] then 46
      else s[i])
  }

  function Dumped(m: seq<Byte>, size: nat): (d: seq<Byte>)
    requires |m| == MSG_SIZE
    ensures |d| == MSG_SIZE
  {
    if size < FIXED_SIZE then m
    else m[..SNAME_AT] + Cleaned(m[SNAME_AT..FILE_AT]) + Cleaned(m[FILE_AT..FIXED_SIZE]) + m[FIXED_SIZE..]
  }

  method CleanText(msg: array<Byte>, at: nat, size: nat)
    requires 0 < size && at + size <= msg.Length
    modifies msg
    ensures msg[at..at + size] == Cleaned(old(msg[at..at + size]))
    ensures forall i | 0 <= i < msg.Length && !(at <= i < at + size) :: msg[i] == old(msg[i])
  {
    ghost var s := msg[at..at + size];
    var n := 0;
    while n < size
      invariant 0 <= n <= size
      invariant 0 !in s[..n]
      invariant forall i | 0 <= i < n :: msg[at + i] == if Unprintable(s[i]) then 46 else s[i]
      invariant forall i | 0 <= i < msg.Length && !(at <= i < at + n) :: msg[i] == old(msg[i])
    {
      assert s[n] == msg[at + n];
      if Unprintable(msg[at + n]) {
        if msg[at + n] == 0 { break; }
        msg[at + n] := 46;
      }
      n := n + 1;
    }
    msg[at + size - 1] := 0;
    forall i | 0 <= i < size - 1
      ensures msg[at + i] == Cleaned(s)[i]
    {
      if n <= i {
        assert s[n] in s[..i + 1];
      } else {
        assert 0 !in s[..i + 1];
      }
    }
    assert msg[at + (size - 1)] == Cleaned(s)[size - 1];
    assert msg[at..at + size] == Cleaned(s);
  }

  method DumpDhcpMsg(msg: array<Byte>, size: nat) returns (visited: seq<OptionAt>)
    requires size <= msg.Length == MSG_SIZE
    modifies msg
    ensures msg[..] == Dumped(old(msg[..]), size)
    ensures visited == if size < OPTIONS_AT then [] else Walk(msg[..size], OPTIONS_AT)
  {
    visited := [];
    if size < FIXED_SIZE { return; }
    var len: int := size - FIXED_SIZE;
    ghost var before := msg[..];
    CleanText(msg, SNAME_AT, FILE_AT - SNAME_AT);
    assert msg[FILE_AT..FIXED_SIZE] == before[FILE_AT..FIXED_SIZE];
    ghost var sname := msg[SNAME_AT..FILE_AT];
    CleanText(msg, FILE_AT, FIXED_SIZE - FILE_AT);
    assert msg[SNAME_AT..FILE_AT] == sname;
    assert msg[..] == msg[..SNAME_AT] + msg[SNAME_AT..FILE_AT] + msg[FILE_AT..FIXED_SIZE] + msg[FIXED_SIZE..];
    if len < 4 { return; }
    visited := DumpOptions(msg, size);
  }

  method DumpOptions(msg: array<Byte>, size: nat) returns (visited: seq<OptionAt>)
    requires OPTIONS_AT <= size <= msg.Length
    ensures visited == Walk(msg[..size], OPTIONS_AT)
  {
    ghost var m := msg[..size];
    visited := [];
    var len := size - OPTIONS_AT;
    var x := OPTIONS_AT;
    while len > 2
      invariant OPTIONS_AT <= x && x + len == size
      invariant visited + Walk(m, x) == Walk(m, OPTIONS_AT)
      decreases len
    {
      ghost var item := ItemAt(m, x);
      if msg[x] == 0 {
        x := x + 1;
        len := len - 1;
        continue;
      }
      if msg[x] == OPT_END {
        assert item == Stop;
        break;
      }
      len := len - 2;
      var optsz: nat := msg[x + 1];
      if optsz > len {
        assert item == Stop;
        break;
      }
      assert item == Take(OptionAt(msg[x], x + 2, optsz));
      visited := visited + [OptionAt(msg[x], x + 2, optsz)];
      len := len - optsz;
      x := x + optsz + 2;
    }
  }

  // ---------- decoder and dumper agree ----------

  lemma {:induction false} WalkInBounds(m: seq<Byte>, x: nat)
    ensures forall o | o in Walk(m, x) :: x + 2 <= o.at < |m| && o.at + o.len <= |m|
    decreases |m| - x
  {
    match ItemAt(m, x)
    case Stop =>
    case Skip => WalkInBounds(m, x + 1);
    case Take(o) => WalkInBounds(m, o.at + o.len);
  }

  /** On arbitrary bytes, the decoder applies exactly the options the dumper visits. */
  lemma {:induction false} DecoderFollowsWalk(m: seq<Byte>, x: nat, info: DhcpInfo)
    ensures DecodeFrom(m, x, info) == FoldWalk(m, Walk(m, x), info)
    decreases |m| - x
  {
    match ItemAt(m, x)
    case Stop =>
    case Skip => DecoderFollowsWalk(m, x + 1, info);
    case Take(o) =>
      assert Walk(m, x)[1..] == Walk(m, o.at + o.len);
      DecoderFollowsWalk(m, o.at + o.len, ApplyAt(m, o, info));
  }

  lemma {:induction false} DecodeFromTail(m: seq<Byte>, n: seq<Byte>, x: nat, info: DhcpInfo)
    requires |m| == |n| && forall i | x <= i < |m| :: m[i] == n[i]
    ensures DecodeFrom(m, x, info) == DecodeFrom(n, x, info)
    decreases |m| - x
  {
    match ItemAt(m, x)
    case Stop =>
    case Skip => DecodeFromTail(m, n, x + 1, info);
    case Take(o) =>
      assert m[o.at..o.at + o.len] == n[o.at..o.at + o.len];
      DecodeFromTail(m, n, o.at + o.len, ApplyAt(m, o, info));
  }

  /** Dumping a message before decoding it, as the client does, does not change what is
      decoded, although it overwrites two text fields. */
  lemma DumpPreservesDecode(m: seq<Byte>, size: nat)
    requires size <= |m| == MSG_SIZE
    ensures Decode(Dumped(m, size)[..size]) == Decode(m[..size])
    ensures Dumped(m, size)[..SNAME_AT] == m[..SNAME_AT]
  {
    var a, b := Dumped(m, size)[..size], m[..size];
    DumpedBytes(m, size);
    if size >= OPTIONS_AT {
      assert a[FIXED_SIZE..OPTIONS_AT] == b[FIXED_SIZE..OPTIONS_AT];
      assert a[16..20] == b[16..20];
      DecodeFromTail(a, b, OPTIONS_AT, NO_INFO);
    }
  }

  lemma DumpedBytes(m: seq<Byte>, size: nat)
    requires |m| == MSG_SIZE
    ensures forall i | 0 <= i < SNAME_AT || FIXED_SIZE <= i < MSG_SIZE :: Dumped(m, size)[i] == m[i]
  {
  }

  // ---------- the codec ----------

  /** What a sender writes into the option area. */
  datatype OptionItem = Pad | Option(code: Byte, value: seq<Byte>)

  predicate Writable(items: seq<OptionItem>) {
    forall i | i in items ::
      i.Option? ==> i.code != OPT_PAD && i.code != OPT_END && |i.value| <= 255
  }

  function EncodeItem(item: OptionItem): seq<Byte>
    requires item.Option? ==> |item.value| <= 255
  {
    match item
    case Pad => [OPT_PAD]
    case Option(code, value) => [code, |value|] + value
  }

  function Encode(items: seq<OptionItem>): seq<Byte>
    requires Writable(items)
  {
    if items == [] then [] else EncodeItem(items[0]) + Encode(items[1..])
  }

  /** The first byte written for items, or END after the last one. */
  function FirstByte(items: seq<OptionItem>): Byte {
    if items == [] then OPT_END else if items[0].Pad? then OPT_PAD else items[0].code
  }

  /** The meaning of an option list: each option updates info, in order. */
  function FoldItems(items: seq<OptionItem>, info: DhcpInfo): DhcpInfo {
    if items == [] then info
    else match items[0]
      case Pad => FoldItems(items[1..], info)
      case Option(code, value) => FoldItems(items[1..], Apply(code, value, FirstByte(items[1..]), info))
  }

  function Options(items: seq<OptionItem>): seq<OptionItem> {
    if items == [] then []
    else (if items[0].Pad? then [] else [items[0]]) + Options(items[1..])
  }

  /** The options a walk found, with their values. */
  function View(m: seq<Byte>, opts: seq<OptionAt>): seq<OptionItem> {
    if opts == [] then []
    else
      var o := opts[0];
      (if o.at + o.len <= |m| then [Option(o.code, m[o.at..o.at + o.len])] else []) + View(m, opts[1..])
  }

  /** Where the pieces of an encoding lie in a message. */
  lemma {:induction false} EncodedPieces(m: seq<Byte>, x: nat, items: seq<OptionItem>)
    requires items != [] && Writable(items)
    requires x <= |m| && Encode(items) + [OPT_END] <= m[x..]
    ensures Writable(items[1..])
    ensures var n := |EncodeItem(items[0])|;
            && n > 0 && x + n <= |m| && m[x..x + n] == EncodeItem(items[0])
            && Encode(items[1..]) + [OPT_END] <= m[x + n..]
  {
    EncodeCons(items);
    SplitPrefix(m, x, EncodeItem(items[0]), Encode(items[1..]) + [OPT_END]);
  }

  lemma {:induction false} EncodeCons(items: seq<OptionItem>)
    requires items != [] && Writable(items)
    ensures Writable(items[1..]) && |EncodeItem(items[0])| > 0
    ensures Encode(items) + [OPT_END] == EncodeItem(items[0]) + (Encode(items[1..]) + [OPT_END])
  {
    Regroup(EncodeItem(items[0]), Encode(items[1..]), [OPT_END]);
  }

  lemma SplitPrefix(m: seq<Byte>, x: nat, head: seq<Byte>, tail: seq<Byte>)
    requires x <= |m| && head + tail <= m[x..]
    ensures x + |head| <= |m| && m[x..x + |head|] == head && tail <= m[x + |head|..]
  {
    assert m[x..][..|head|] == head && m[x..][|head|..] == m[x + |head|..];
  }

  /** items, and END after them, stand at offset x of m. */
  predicate StandsAt(m: seq<Byte>, x: nat, items: seq<OptionItem>)
    decreases |items|
  {
    if items == [] then x < |m| && m[x] == OPT_END
    else match items[0]
      case Pad => x < |m| && m[x] == OPT_PAD && StandsAt(m, x + 1, items[1..])
      case Option(code, value) =>
        var n := |value|;
        && code != OPT_PAD && code != OPT_END
        && x + 2 + n <= |m| && m[x] == code && m[x + 1] == n && m[x + 2..x + 2 + n] == value
        && StandsAt(m, x + 2 + n, items[1..])
  }

  /** Writing a list puts it there, whatever precedes and follows. */
  lemma {:induction false} EncodingStands(m: seq<Byte>, x: nat, items: seq<OptionItem>)
    requires Writable(items)
    requires x <= |m| && Encode(items) + [OPT_END] <= m[x..]
    ensures StandsAt(m, x, items)
    decreases |items|
  {
    hide EncodeItem;
    if items == [] {
      assert Encode(items) + [OPT_END] == [OPT_END];
      assert m[x] == m[x..][0];
    } else {
      hide StandsAt, Encode;
      EncodedPieces(m, x, items);
      var head := EncodeItem(items[0]);
      EncodingStands(m, x + |head|, items[1..]);
      HeadStands(m, x, items, head);
    }
  }

  lemma HeadStands(m: seq<Byte>, x: nat, items: seq<OptionItem>, head: seq<Byte>)
    requires items != [] && Writable(items) && head == EncodeItem(items[0])
    requires x + |head| <= |m| && m[x..x + |head|] == head && StandsAt(m, x + |head|, items[1..])
    ensures StandsAt(m, x, items)
  {
    assert m[x] == m[x..x + |head|][0];
    if items[0].Option? {
      assert m[x + 1] == m[x..x + |head|][1];
      assert m[x + 2..x + |head|] == m[x..x + |head|][2..] == head[2..];
    }
  }

  lemma FirstStands(m: seq<Byte>, x: nat, items: seq<OptionItem>)
    requires StandsAt(m, x, items)
    ensures x < |m| && m[x] == FirstByte(items)
  {
  }

  /** The decoder and the dumper stop two bytes early, but then nothing is left. */
  lemma ItemStands(m: seq<Byte>, x: nat, items: seq<OptionItem>)
    requires items != [] && StandsAt(m, x, items)
    ensures items[0].Pad? ==>
              && StandsAt(m, x + 1, items[1..])
              && (ItemAt(m, x) == Skip || (ItemAt(m, x) == Stop && items[1..] == []))
    ensures items[0].Option? ==>
              var n := |items[0].value|;
              && ItemAt(m, x) == Take(OptionAt(items[0].code, x + 2, n))
              && m[x + 2..x + 2 + n] == items[0].value
              && StandsAt(m, x + 2 + n, items[1..])
  {
    if items[0].Pad? {
      FirstStands(m, x + 1, items[1..]);
      if |m| == x + 2 && items[1..] != [] {
        if items[1..][0].Pad? {
          FirstStands(m, x + 2, items[1..][1..]);
        }
      }
    } else {
      FirstStands(m, x + 2 + |items[0].value|, items[1..]);
    }
  }

  /** For every option list, with any pads, END and any bytes after it, the decoder
      computes the meaning of the list. */
  lemma {:induction false} CodecDecodes(m: seq<Byte>, x: nat, items: seq<OptionItem>, info: DhcpInfo)
    requires StandsAt(m, x, items)
    ensures DecodeFrom(m, x, info) == FoldItems(items, info)
    decreases |items|
  {
    if items != [] {
      ItemStands(m, x, items);
      if items[0].Pad? {
        CodecDecodes(m, x + 1, items[1..], info);
      } else {
        var n := |items[0].value|;
        FirstStands(m, x + 2 + n, items[1..]);
        ItemApplied(m, x + 2, items[0], FirstByte(items[1..]), info);
        CodecDecodes(m, x + 2 + n, items[1..], ApplyAt(m, OptionAt(items[0].code, x + 2, n), info));
      }
    }
  }

  lemma ItemApplied(m: seq<Byte>, at: nat, item: OptionItem, next: Byte, info: DhcpInfo)
    requires item.Option? && at + |item.value| <= |m| && at < |m|
    requires m[at..at + |item.value|] == item.value
    requires item.value == [] ==> m[at] == next
    ensures ApplyAt(m, OptionAt(item.code, at, |item.value|), info) == Apply(item.code, item.value, next, info)
  {
  }

  /** The dumper's walk recovers exactly the options written, in order. */
  lemma {:induction false} CodecWalks(m: seq<Byte>, x: nat, items: seq<OptionItem>)
    requires StandsAt(m, x, items)
    ensures View(m, Walk(m, x)) == Options(items)
    decreases |items|
  {
    if items != [] {
      ItemStands(m, x, items);
      if items[0].Pad? {
        CodecWalks(m, x + 1, items[1..]);
      } else {
        CodecWalks(m, x + 2 + |items[0].value|, items[1..]);
        OptionWalked(m, x, items);
      }
    }
  }

  lemma {:induction false} OptionWalked(m: seq<Byte>, x: nat, items: seq<OptionItem>)
    requires items != [] && items[0].Option?
    requires var n := |items[0].value|;
             && ItemAt(m, x) == Take(OptionAt(items[0].code, x + 2, n))
             && m[x + 2..x + 2 + n] == items[0].value
             && View(m, Walk(m, x + 2 + n)) == Options(items[1..])
    ensures View(m, Walk(m, x)) == Options(items)
  {
    var n := |items[0].value|;
    assert Options(items) == [items[0]] + Options(items[1..]);
    ViewStep(m, OptionAt(items[0].code, x + 2, n), Walk(m, x + 2 + n));
  }

  lemma {:induction false} ViewStep(m: seq<Byte>, o: OptionAt, opts: seq<OptionAt>)
    requires o.at + o.len <= |m|
    ensures View(m, [o] + opts) == [Option(o.code, m[o.at..o.at + o.len])] + View(m, opts)
  {
    assert ([o] + opts)[1..] == opts;
  }
}
