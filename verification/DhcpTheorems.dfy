/** What the option decoder, the dumper and the message builders mean, byte by byte. */
module DhcpTheorems {
  import opened Bytes
  import opened Netmask
  import opened DhcpOptions
  import opened DhcpMessage

  // ---------- the fields of the decoded info ----------

  datatype Last = Missing | Found(value: seq<Byte>)

  predicate Matches(item: OptionItem, code: nat, min: nat) {
    item.Option? && item.code == code && |item.value| >= min
  }

  /** The value of the last option with that code and at least min bytes. */
  function LastValue(items: seq<OptionItem>, code: nat, min: nat): (r: Last)
    ensures r.Found? ==> |r.value| >= min
  {
    if items == [] then Missing
    else
      var later := LastValue(items[1..], code, min);
      if later.Found? then later
      else if Matches(items[0], code, min) then Found(items[0].value)
      else Missing
  }

  /** Item k is the last one with that code and length. */
  predicate IsLast(items: seq<OptionItem>, k: nat, code: nat, min: nat) {
    && k < |items| && Matches(items[k], code, min)
    && forall j | k < j < |items| :: !Matches(items[j], code, min)
  }

  /** No item but one with that code and length matters, and of those only the last. */
  lemma {:induction false} LastValueMeaning(items: seq<OptionItem>, code: nat, min: nat)
    ensures LastValue(items, code, min).Missing? <==> forall k | 0 <= k < |items| :: !Matches(items[k], code, min)
    ensures forall k: nat | IsLast(items, k, code, min) :: LastValue(items, code, min) == Found(items[k].value)
    decreases |items|
  {
    if items != [] {
      var rest := items[1..];
      LastValueMeaning(rest, code, min);
      assert forall k | 0 <= k < |rest| :: rest[k] == items[k + 1];
      if LastValue(rest, code, min).Missing? {
        assert forall k | 0 < k < |items| :: items[k] == rest[k - 1];
      } else {
        var k :| 0 <= k < |rest| && Matches(rest[k], code, min);
        assert Matches(items[k + 1], code, min);
      }
      forall k: nat | IsLast(items, k, code, min)
        ensures LastValue(items, code, min) == Found(items[k].value)
      {
        if k > 0 {
          assert IsLast(rest, k - 1, code, min);
        }
      }
    }
  }

  /** Four bytes as memcpy leaves them in a little-endian word, and in network order. */
  function Raw(v: seq<Byte>, at: nat): int
    requires at + 4 <= |v|
  {
    v[at] as int + 0x100 * (v[at + 1] as int) + 0x1_0000 * (v[at + 2] as int) + 0x100_0000 * (v[at + 3] as int)
  }

  function Net(v: seq<Byte>): int
    requires |v| >= 4
  {
    0x100_0000 * (v[0] as int) + 0x1_0000 * (v[1] as int) + 0x100 * (v[2] as int) + v[3] as int
  }

  /** The first four bytes of the last option with that code, or 0. */
  function RawField(items: seq<OptionItem>, code: nat, unset: int): int {
    match LastValue(items, code, 4)
    case Missing => unset
    case Found(v) => Raw(v, 0)
  }

  /** r is info with gateway, servers, prefix length and lease time as the options say. */
  predicate FieldsOf(items: seq<OptionItem>, info: DhcpInfo, r: DhcpInfo) {
    && r.gateway == RawField(items, 3, info.gateway)
    && r.dns1 == RawField(items, 6, info.dns1)
    && r.serveraddr == RawField(items, 54, info.serveraddr)
    && (match LastValue(items, 6, 8)
        case Missing => r.dns2 == info.dns2
        case Found(v) => r.dns2 == Raw(v, 4))
    && (match LastValue(items, 51, 4)
        case Missing => r.lease == info.lease
        case Found(v) => r.lease == Net(v))
    && (match LastValue(items, 1, 4)
        case Missing => r.prefixLength == info.prefixLength
        case Found(v) => LeadingBits(Net(v), r.prefixLength))
  }

  /** p leading ones, and then a zero if there is another bit. */
  predicate LeadingBits(mask: int, p: nat) {
    && 0 <= mask < WORD32 && p <= 32
    && (forall i | 0 <= i < p :: Bit(mask, i))
    && (p < 32 ==> !Bit(mask, p))
  }

  lemma {:induction false} LeadingOnesAreBits(mask: Word32)
    requires LeadingOnes(mask) <= 32
    ensures LeadingBits(mask, LeadingOnes(mask))
    decreases LeadingOnes(mask)
  {
    if mask >= TOP_BIT {
      LeadingOnesAreBits(Double(mask));
      forall i | 0 <= i < LeadingOnes(mask)
        ensures Bit(mask, i)
      {
        assert i > 0 ==> Bit(Double(mask), i - 1);
      }
    }
  }

  /** One option changes only the field its code names. */
  lemma ApplyFields(code: Byte, value: seq<Byte>, next: Byte, info: DhcpInfo)
    ensures var r := Apply(code, value, next, info);
            && FieldsOf([Option(code, value)], info, r)
            && r.typ == if code != 53 then info.typ else if |value| > 0 then value[0] as Word32 else next
  {
    var item := Option(code, value);
    OneValue(item, 1, 4);
    OneValue(item, 3, 4);
    OneValue(item, 6, 4);
    OneValue(item, 6, 8);
    OneValue(item, 51, 4);
    OneValue(item, 54, 4);
    if |value| >= 4 {
      Quad(value, 0);
      if |value| >= 8 {
        Quad(value, 4);
      }
      AtMost32(FromBe32(value[..4]));
      LeadingOnesAreBits(FromBe32(value[..4]));
    }
    hide LastValue, LeadingOnes, LeadingBits, FromBe32, FromLe32, Raw, Net;
  }

  lemma OneValue(item: OptionItem, code: nat, min: nat)
    requires item.Option?
    ensures LastValue([item], code, min)
         == if item.code == code && |item.value| >= min then Found(item.value) else Missing
  {
    assert [item][1..] == [];
  }

  lemma Quad(v: seq<Byte>, at: nat)
    requires at + 4 <= |v|
    ensures FromLe32(v[at..at + 4]) == Raw(v, at)
    ensures at == 0 ==> FromLe32(v[..4]) == Raw(v, 0) && FromBe32(v[..4]) == Net(v)
  {
    assert v[at..at + 4] == [v[at], v[at + 1], v[at + 2], v[at + 3]];
    ByteOrders(v[at], v[at + 1], v[at + 2], v[at + 3]);
    if at == 0 {
      assert v[..4] == v[0..4];
    }
  }

  lemma FieldsChain(head: OptionItem, rest: seq<OptionItem>, info: DhcpInfo, mid: DhcpInfo, r: DhcpInfo)
    requires FieldsOf([head], info, mid) && FieldsOf(rest, mid, r)
    ensures FieldsOf([head] + rest, info, r)
  {
    ChainValue(head, rest, 1, 4);
    ChainValue(head, rest, 3, 4);
    ChainValue(head, rest, 6, 4);
    ChainValue(head, rest, 6, 8);
    ChainValue(head, rest, 51, 4);
    ChainValue(head, rest, 54, 4);
    hide LastValue, LeadingBits, Raw, Net;
  }

  lemma ChainValue(head: OptionItem, rest: seq<OptionItem>, code: nat, min: nat)
    ensures var later := LastValue(rest, code, min);
            LastValue([head] + rest, code, min) == if later.Found? then later else LastValue([head], code, min)
  {
    assert ([head] + rest)[1..] == rest && [head][1..] == [];
  }

  /** The meaning of an option list, field by field: each field is what the last option
      long enough that names it says, and options of other codes do not touch it. */
  lemma {:induction false} FoldFields(items: seq<OptionItem>, info: DhcpInfo)
    ensures FieldsOf(items, info, FoldItems(items, info))
    decreases |items|
  {
    hide FieldsOf, Apply;
    if items == [] {
      NoFields(info);
    } else {
      var head, rest := items[0], items[1..];
      assert items == [head] + rest;
      match head
      case Pad =>
        PadFields(info);
        FoldFields(rest, info);
        FieldsChain(head, rest, info, info, FoldItems(rest, info));
      case Option(code, value) =>
        var mid := Apply(code, value, FirstByte(rest), info);
        ApplyFields(code, value, FirstByte(rest), info);
        FoldFields(rest, mid);
        FieldsChain(head, rest, info, mid, FoldItems(rest, mid));
    }
  }

  lemma NoFields(info: DhcpInfo)
    ensures FieldsOf([], info, info)
  {
  }

  lemma PadFields(info: DhcpInfo)
    ensures FieldsOf([Pad], info, info)
  {
    assert [Pad][1..] == [];
  }

  /** The message type is the first byte of the last option 53, and where that is empty the
      byte that follows it. */
  lemma {:induction false} FoldType(items: seq<OptionItem>, info: DhcpInfo)
    ensures (forall k | 0 <= k < |items| :: !Matches(items[k], 53, 0)) ==> FoldItems(items, info).typ == info.typ
    ensures forall k: nat | IsLast(items, k, 53, 0) ::
              var v := items[k].value;
              FoldItems(items, info).typ == if |v| > 0 then v[0] as Word32 else FirstByte(items[k + 1..])
    decreases |items|
  {
    if items != [] {
      var head, rest := items[0], items[1..];
      assert forall k | 0 <= k < |rest| :: rest[k] == items[k + 1];
      var mid := if head.Pad? then info else Apply(head.code, head.value, FirstByte(rest), info);
      if head.Option? {
        ApplyFields(head.code, head.value, FirstByte(rest), info);
      }
      FoldType(rest, mid);
      assert FoldItems(items, info) == FoldItems(rest, mid);
      hide Apply, FoldItems, FirstByte;
      forall k: nat | IsLast(items, k, 53, 0)
        ensures FoldItems(items, info).typ
             == if |items[k].value| > 0 then items[k].value[0] as Word32 else FirstByte(items[k + 1..])
      {
        if k > 0 {
          assert IsLast(rest, k - 1, 53, 0);
          assert rest[k..] == items[k + 1..];
        }
      }
    }
  }

  const ZERO_INFO := DhcpInfo(0, 0, 0, 0, 0, 0, 0, 0)

  /** What decoding any message that carries an option list gives, field by field. */
  lemma CarriedFields(m: seq<Byte>, items: seq<OptionItem>)
    requires Writable(items) && Carries(m, items)
    ensures |m| >= 240 && FieldsOf(items, ZERO_INFO, Decode(m)) && Decode(m).ipaddr == Raw(m, 16)
    ensures (forall k | 0 <= k < |items| :: !Matches(items[k], 53, 0)) ==> Decode(m).typ == 0
    ensures forall k: nat | IsLast(items, k, 53, 0) && |items[k].value| > 0 ::
              Decode(m).typ == items[k].value[0] as Word32
  {
    hide Decode, FoldItems, Encode;
    DecodeCarried(m, items);
    FoldFields(items, NO_INFO);
    FoldType(items, NO_INFO);
    Quad(m, 16);
    SameFields(items, ZERO_INFO, FoldItems(items, NO_INFO), Decode(m));
  }

  lemma SameFields(items: seq<OptionItem>, info: DhcpInfo, a: DhcpInfo, b: DhcpInfo)
    requires FieldsOf(items, info, a) && b == a.(ipaddr := b.ipaddr, typ := b.typ)
    ensures FieldsOf(items, info, b)
  {
  }

  // ---------- arbitrary bytes ----------

  /** Folding over the options found is folding over their contents, but for the message
      type of an empty option. */
  lemma {:induction false} FoldViews(m: seq<Byte>, opts: seq<OptionAt>, a: DhcpInfo, b: DhcpInfo)
    requires forall o | o in opts :: o.at < |m| && o.at + o.len <= |m|
    requires a == b.(typ := a.typ)
    ensures FoldWalk(m, opts, a) == FoldItems(View(m, opts), b).(typ := FoldWalk(m, opts, a).typ)
    decreases |opts|
  {
    if opts != [] {
      var o, rest := opts[0], opts[1..];
      assert o in opts && forall p | p in rest :: p in opts;
      var item := Option(o.code, m[o.at..o.at + o.len]);
      assert View(m, opts) == [item] + View(m, rest);
      FoldStep(item, View(m, rest), b);
      TypeOnly(o.code, item.value, m[o.at], FirstByte(View(m, rest)), a, b);
      hide Apply;
      FoldViews(m, rest, ApplyAt(m, o, a), Apply(o.code, item.value, FirstByte(View(m, rest)), b));
    }
  }

  lemma TypeOnly(code: Byte, value: seq<Byte>, next: Byte, next': Byte, a: DhcpInfo, b: DhcpInfo)
    requires a == b.(typ := a.typ)
    ensures var r, s := Apply(code, value, next, a), Apply(code, value, next', b);
            r == s.(typ := r.typ)
  {
    hide FromLe32, FromBe32, LeadingOnes;
  }

  /** The cookie of RFC 2131 is required, right after the fixed part. */
  lemma CookieExact(m: seq<Byte>)
    ensures HasCookie(m) <==> |m| >= 240 && m[236] == 99 && m[237] == 130 && m[238] == 83 && m[239] == 99
    ensures !HasCookie(m) ==> Decode(m) == ZERO_INFO
  {
    if |m| >= 240 {
      assert m[236..240] == [m[236], m[237], m[238], m[239]];
    }
  }

  /** On arbitrary bytes the fields are those of the options that the dumper's walk finds. */
  lemma AnyFields(m: seq<Byte>)
    requires HasCookie(m)
    ensures FieldsOf(View(m, Walk(m, 240)), ZERO_INFO, Decode(m)) && Decode(m).ipaddr == Raw(m, 16)
  {
    hide FoldWalk, FoldItems, Walk, View, FieldsOf, DecodeFrom;
    var opts := Walk(m, 240);
    WalkInBounds(m, 240);
    DecoderFollowsWalk(m, 240, NO_INFO);
    FoldViews(m, opts, NO_INFO, NO_INFO);
    FoldFields(View(m, opts), NO_INFO);
    Quad(m, 16);
    SameFields(View(m, opts), ZERO_INFO, FoldItems(View(m, opts), NO_INFO), Decode(m));
  }

  // ---------- messages cut short ----------

  /** Bytes of which neither loop makes an option: two or fewer, or a head whose value does
      not fit. */
  predicate CutShort(rest: seq<Byte>) {
    |rest| <= 2 || (rest[0] != 0 && rest[0] != 255 && 2 + rest[1] as int > |rest|)
  }

  predicate EndsEmpty(items: seq<OptionItem>) {
    items != [] && var last := items[|items| - 1]; last.Option? && last.value == []
  }

  lemma {:induction false} ShortIsPads(items: seq<OptionItem>)
    requires Writable(items) && |Encode(items)| <= 2 && !EndsEmpty(items)
    ensures Options(items) == []
    decreases |items|
  {
    if items != [] {
      EncodeCons(items);
      var rest := items[1..];
      if rest == [] {
        assert Encode(rest) == [];
      } else {
        EncodeCons(rest);
      }
      ShortIsPads(rest);
    }
  }

  /** A list written without END and cut off by the end of the message, even inside the next
      option: the walk still finds exactly the options that are there in full. */
  lemma {:induction false} CutCodecWalks(m: seq<Byte>, x: nat, items: seq<OptionItem>, rest: seq<Byte>)
    requires Writable(items) && x <= |m| && m[x..] == Encode(items) + rest
    requires CutShort(rest) && (rest != [] || !EndsEmpty(items))
    ensures View(m, Walk(m, x)) == Options(items)
    decreases |items|
  {
    hide *;
    if items == [] {
      NothingWritten(m, x, items, rest);
    } else {
      WritableHead(items);
      var head := EncodeItem(items[0]);
      EncodeCons(items);
      HeadBytes(items[0]);
      EncodeTail(items);
      CutPieces(m, x, head, Encode(items[1..]), rest);
      if |m| <= x + 2 {
        ShortIsPadsOrEmpty(items, rest);
        StopsShort(m, x);
      } else {
        TailNotEmpty(items, rest);
        if items[0].Pad? {
          PadSkipped(m, x, items);
          CutCodecWalks(m, x + 1, items[1..], rest);
        } else {
          CutCodecWalks(m, x + |head|, items[1..], rest);
          OptionHere(m, x, items, head);
          OptionWalked(m, x, items);
        }
      }
    }
  }

  lemma WritableHead(items: seq<OptionItem>)
    requires items != [] && Writable(items)
    ensures items[0].Option? ==> |items[0].value| <= 255
  {
    assert items[0] in items;
  }

  lemma TailNotEmpty(items: seq<OptionItem>, rest: seq<Byte>)
    requires items != [] && (rest != [] || !EndsEmpty(items))
    ensures rest != [] || !EndsEmpty(items[1..])
  {
  }

  lemma StopsShort(m: seq<Byte>, x: nat)
    requires |m| <= x + 2
    ensures View(m, Walk(m, x)) == []
  {
  }

  lemma PadSkipped(m: seq<Byte>, x: nat, items: seq<OptionItem>)
    requires x + 2 < |m| && m[x..x + 1] == [0] && items != [] && items[0].Pad?
    ensures Walk(m, x) == Walk(m, x + 1) && Options(items) == Options(items[1..])
  {
    assert m[x] == m[x..x + 1][0];
  }

  lemma NothingWritten(m: seq<Byte>, x: nat, items: seq<OptionItem>, rest: seq<Byte>)
    requires Writable(items) && items == [] && x <= |m| && m[x..] == Encode(items) + rest && CutShort(rest)
    ensures View(m, Walk(m, x)) == Options(items)
  {
    assert m[x..] == rest;
    assert |rest| > 2 ==> m[x] == rest[0] && m[x + 1] == rest[1];
  }

  lemma HeadBytes(item: OptionItem)
    requires item.Option? ==> |item.value| <= 255
    ensures EncodeItem(item) == if item.Pad? then [0] else [item.code, |item.value|] + item.value
    ensures |EncodeItem(item)| == if item.Pad? then 1 else 2 + |item.value|
  {
  }

  lemma EncodeTail(items: seq<OptionItem>)
    requires items != [] && Writable(items)
    ensures Writable(items[1..]) && Encode(items) == EncodeItem(items[0]) + Encode(items[1..])
  {
  }

  lemma OptionHere(m: seq<Byte>, x: nat, items: seq<OptionItem>, head: seq<Byte>)
    requires items != [] && items[0].Option? && Writable(items)
    requires var item := items[0]; |item.value| <= 255 && head == [item.code, |item.value|] + item.value
    requires x + |head| <= |m| && x + 2 < |m| && m[x..x + |head|] == head
    ensures var n := |items[0].value|;
            ItemAt(m, x) == Take(OptionAt(items[0].code, x + 2, n)) && m[x + 2..x + 2 + n] == items[0].value
            && |head| == 2 + n
  {
    var n := |items[0].value|;
    assert items[0] in items;
    Window(m, x, x + 2 + n, 2, 2 + n);
    assert head[2..2 + n] == items[0].value;
    assert m[x] == m[x..x + 2 + n][0] && m[x + 1] == m[x..x + 2 + n][1];
  }

  lemma ShortIsPadsOrEmpty(items: seq<OptionItem>, rest: seq<Byte>)
    requires Writable(items) && |Encode(items) + rest| <= 2 && (rest != [] || !EndsEmpty(items))
    ensures Options(items) == []
  {
    if EndsEmpty(items) {
      LastTwoBytes(items);
    } else {
      ShortIsPads(items);
    }
  }

  lemma {:induction false} LastTwoBytes(items: seq<OptionItem>)
    requires Writable(items) && EndsEmpty(items)
    ensures |Encode(items)| >= 2
    decreases |items|
  {
    EncodeCons(items);
    if |items| > 1 {
      assert items[1..][|items| - 2] == items[|items| - 1];
      LastTwoBytes(items[1..]);
    }
  }

  lemma CutPieces(m: seq<Byte>, x: nat, head: seq<Byte>, tail: seq<Byte>, rest: seq<Byte>)
    requires x <= |m| && m[x..] == (head + tail) + rest
    ensures x + |head| <= |m| && m[x..x + |head|] == head && m[x + |head|..] == tail + rest
  {
    Regroup(head, tail, rest);
    assert m[x..][..|head|] == head && m[x..][|head|..] == m[x + |head|..];
  }

  /** The one exception: an option without a value in the last two bytes is not seen. */
  lemma EmptyLastUnseen(m: seq<Byte>, x: nat, items: seq<OptionItem>, code: Byte)
    requires Writable(items) && code != 0 && code != 255
    requires x <= |m| && m[x..] == Encode(items) + [code, 0]
    ensures View(m, Walk(m, x)) == Options(items)
  {
    CutCodecWalks(m, x, items, [code, 0]);
  }

  // ---------- the dumper's text fields ----------

  /** The first k bytes hold no NUL. */
  predicate NoNul(s: seq<Byte>, k: nat) { forall i | 0 <= i < k && i < |s| :: s[i] != 0 }

  /** Cleaning a text field: up to the first NUL printable characters stay and others become
      dots; after it nothing changes; the last byte becomes NUL. */
  lemma CleanedText(s: seq<Byte>, i: nat)
    requires i < |s|
    ensures Cleaned(s)[i]
         == if i == |s| - 1 then 0
            else if !NoNul(s, i + 1) then s[i]
            else if 32 <= s[i] <= 127 then s[i] else '.' as int
  {
    assert 0 !in s[..i + 1] <==> NoNul(s, i + 1) by {
      assert forall j | 0 <= j <= i :: s[..i + 1][j] == s[j];
    }
  }

  /** The fields are sname and file; a message too short for them is left alone. */
  lemma DumpedFields(m: seq<Byte>, size: nat)
    requires |m| == 1260
    ensures var d := Dumped(m, size);
            if size < 236 then d == m
            else && d[..44] == m[..44] && d[44..108] == Cleaned(m[44..108])
                 && d[108..236] == Cleaned(m[108..236]) && d[236..] == m[236..]
  {
  }
}
