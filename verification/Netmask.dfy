/** The two netmask computations of libnetutils: prefix length to mask and back
    (ifc_utils.c), and the validation loop of fill_ip_info (dhcp_utils.c). */
module Netmask {
  import opened Bytes

  const TOP_BIT: int := 0x8000_0000

  function Pow2(n: nat): nat { if n == 0 then 1 else 2 * Pow2(n - 1) }

  /** x << 1 on a 32-bit unsigned integer. */
  function Double(x: Word32): Word32 { if x < TOP_BIT then 2 * x else 2 * x - WORD32 }

  function ShiftLeft(x: Word32, k: nat): Word32
    decreases k
  {
    if k == 0 then x else ShiftLeft(Double(x), k - 1)
  }

  /** The host-order mask with p leading ones. */
  function HostMask(p: nat): Word32
    requires p <= 32
  {
    Pow2Bounds(32 - p);
    WORD32 - Pow2(32 - p)
  }

  ghost predicate Contiguous(m: Word32) {
    exists p | 0 <= p <= 32 :: m == HostMask(p)
  }

  /** Bit i of m, counted from the most significant one. */
  predicate Bit(m: Word32, i: nat)
    decreases i
  {
    if i == 0 then m >= TOP_BIT else Bit(Double(m), i - 1)
  }

  ghost predicate Contained(m: Word32, n: Word32) {
    forall i | 0 <= i < 32 :: Bit(m, i) ==> Bit(n, i)
  }

  function LeadingOnes(m: Word32): nat
    decreases m
  {
    if m < TOP_BIT then 0 else 1 + LeadingOnes(Double(m))
  }

  lemma {:induction false} Pow2Bounds(n: nat)
    requires n <= 32
    ensures 1 <= Pow2(n) <= WORD32
    ensures n < 32 ==> Pow2(n) <= TOP_BIT
    ensures Pow2(32) == WORD32
  {
    assert Pow2(32) == WORD32 by {
      assert Pow2(8) == 256;
      assert Pow2(16) == 65536;
      assert Pow2(24) == 0x100_0000;
    }
    Pow2Monotone(n, 32);
    if n < 32 {
      Pow2Monotone(n + 1, 32);
    }
  }

  lemma {:induction false} Pow2Monotone(a: nat, b: nat)
    requires a <= b
    ensures 1 <= Pow2(a) <= Pow2(b)
    decreases b
  {
    if b > 0 {
      if a == b {
        Pow2Monotone(a - 1, b - 1);
      } else {
        Pow2Monotone(a, b - 1);
      }
    }
  }

  lemma DoubleMask(p: nat)
    requires 1 <= p <= 32
    ensures HostMask(p) >= TOP_BIT && Double(HostMask(p)) == HostMask(p - 1)
  {
    Pow2Bounds(32 - p);
    Pow2Bounds(33 - p);
  }

  lemma NoMask()
    ensures HostMask(0) == 0
  {
    Pow2Bounds(32);
  }

  lemma {:induction false} ShiftOnes(j: nat, k: nat)
    requires j + k <= 32
    ensures ShiftLeft(HostMask(32 - j), k) == HostMask(32 - j - k)
    decreases k
  {
    if k > 0 {
      DoubleMask(32 - j);
      ShiftOnes(j + 1, k - 1);
    }
  }

  // ---------- the code ----------

  method PrefixLengthToIpv4Netmask(prefixLength: int) returns (mask: Word32)
    ensures mask == if 0 < prefixLength <= 32 then Swap32(HostMask(prefixLength)) else 0
  {
    if prefixLength <= 0 || prefixLength > 32 {
      return 0;
    }
    ShiftOnes(0, 32 - prefixLength);
    mask := ShiftLeft(WORD32 - 1, 32 - prefixLength);
    mask := Swap32(mask);
  }

  method Ipv4NetmaskToPrefixLength(mask: Word32) returns (prefixLength: nat)
    ensures prefixLength == LeadingOnes(Swap32(mask))
  {
    prefixLength := 0;
    var m: Word32 := Swap32(mask);
    while m >= TOP_BIT
      invariant prefixLength + LeadingOnes(m) == LeadingOnes(Swap32(mask))
      decreases m
    {
      prefixLength := prefixLength + 1;
      m := Double(m);
    }
  }

  /** The mask loop of fill_ip_info on a host-order mask. */
  method ValidateNetmask(netmask: Word32) returns (valid: bool, p: nat)
    ensures valid <==> Contiguous(netmask)
    ensures valid ==> p == LeadingOnes(netmask)
  {
    CheckMeaning(netmask, 0);
    Pow2Bounds(0);
    var mask: Word32 := netmask;
    p := 0;
    while p < 32
      invariant 0 <= p <= 32
      invariant Check(mask, p) == Check(netmask, 0)
    {
      if mask == 0 { break; }
      if mask < TOP_BIT {
        return false, p;
      }
      mask := Double(mask);
      p := p + 1;
    }
    valid := true;
  }

  // ---------- why the two agree ----------

  datatype Verdict = Invalid | Valid(prefixLength: nat)

  function Check(mask: Word32, p: nat): Verdict
    requires p <= 32
    decreases 32 - p
  {
    if p == 32 || mask == 0 then Valid(p)
    else if mask < TOP_BIT then Invalid
    else Check(Double(mask), p + 1)
  }

  /** After p shifts at least p low bits are 0, which bounds what is left to count. */
  lemma {:induction false} CheckMeaning(mask: Word32, p: nat)
    requires p <= 32 && mask + Pow2(p) <= WORD32
    ensures Check(mask, p) == if Contiguous(mask) then Valid(p + LeadingOnes(mask)) else Invalid
    ensures p + LeadingOnes(mask) <= 32
    decreases 32 - p
  {
    hide Contiguous, Pow2, Double;
    NoMask();
    Pow2Bounds(p);
    if p == 32 || mask == 0 {
      ZeroIsMask();
    } else if mask < TOP_BIT {
      NoMaskBelow(mask);
    } else {
      DoubleBound(mask, p);
      CheckMeaning(Double(mask), p + 1);
      ContiguousStep(mask);
    }
  }

  lemma DoubleBound(mask: Word32, p: nat)
    requires mask >= TOP_BIT && p < 32 && mask + Pow2(p) <= WORD32
    ensures Double(mask) + Pow2(p + 1) <= WORD32
  {
  }

  lemma ZeroIsMask()
    ensures Contiguous(0)
  {
    NoMask();
    assert 0 == HostMask(0);
  }

  lemma NoMaskBelow(mask: Word32)
    requires 0 < mask < TOP_BIT
    ensures !Contiguous(mask)
  {
    NoMask();
    forall q | 0 <= q <= 32
      ensures mask != HostMask(q)
    {
      if q > 0 {
        DoubleMask(q);
      }
    }
  }

  lemma ContiguousStep(mask: Word32)
    requires mask >= TOP_BIT
    requires 1 + LeadingOnes(Double(mask)) <= 32
    ensures Contiguous(mask) <==> Contiguous(Double(mask))
  {
    NoMask();
    if Contiguous(mask) {
      var p :| 0 <= p <= 32 && mask == HostMask(p);
      DoubleMask(p);
    }
    if Contiguous(Double(mask)) {
      var q :| 0 <= q <= 32 && Double(mask) == HostMask(q);
      LeadingOnesOfMask(q);
      DoubleMask(q + 1);
      assert mask == HostMask(q + 1);
    }
  }

  lemma {:induction false} LeadingOnesOfMask(p: nat)
    requires p <= 32
    ensures LeadingOnes(HostMask(p)) == p
  {
    if p == 0 {
      NoMask();
    } else {
      DoubleMask(p);
      LeadingOnesOfMask(p - 1);
    }
  }

  lemma AtMost32(m: Word32)
    ensures LeadingOnes(m) <= 32
  {
    CheckMeaning(m, 0);
  }

  lemma Swap32Involution(m: Word32)
    ensures Swap32(Swap32(m)) == m
  {
    var b := Le32(m);
    var r := [b[3], b[2], b[1], b[0]];
    assert FromLe32(r) == FromBe32(b);
    Le32Inverse(r);
    assert FromBe32(r) == FromLe32(b);
  }

  /** Prefix to mask to prefix is the identity on 0..32. */
  lemma PrefixRoundTrip(p: nat)
    requires p <= 32
    ensures var mask := if 0 < p then Swap32(HostMask(p)) else 0;
            LeadingOnes(Swap32(mask)) == p
  {
    LeadingOnesOfMask(p);
    if p > 0 {
      Swap32Involution(HostMask(p));
    }
  }

  lemma {:induction false} MaskBits(p: nat, i: nat)
    requires p <= 32
    ensures Bit(HostMask(p), i) <==> i < p
  {
    if p == 0 {
      NoMask();
      ZeroBits(i);
    } else {
      DoubleMask(p);
      if i > 0 {
        MaskBits(p - 1, i - 1);
      }
    }
  }

  lemma {:induction false} ZeroBits(i: nat)
    ensures !Bit(0, i)
  {
    if i > 0 {
      ZeroBits(i - 1);
    }
  }

  lemma {:induction false} LeadingBits(m: Word32, i: nat)
    requires i < LeadingOnes(m)
    ensures Bit(m, i)
  {
    if i > 0 {
      LeadingBits(Double(m), i - 1);
    }
  }

  lemma {:induction false} FirstZeroBit(m: Word32)
    ensures !Bit(m, LeadingOnes(m))
    decreases m
  {
    if m >= TOP_BIT {
      FirstZeroBit(Double(m));
    }
  }

  lemma ContainedMasks(q: nat, m: Word32)
    requires q <= 32
    ensures Contained(HostMask(q), m) <==> q <= LeadingOnes(m)
  {
    forall i | 0 <= i < 32
      ensures Bit(HostMask(q), i) <==> i < q
    {
      MaskBits(q, i);
    }
    if q <= LeadingOnes(m) {
      forall i | 0 <= i < 32 && Bit(HostMask(q), i)
        ensures Bit(m, i)
      {
        LeadingBits(m, i);
      }
    } else {
      FirstZeroBit(m);
      assert Bit(HostMask(q), LeadingOnes(m));
    }
  }

  /** Mask to prefix to mask yields the largest contiguous mask contained in the input,
      and the input itself exactly when it is contiguous. */
  lemma LargestContainedMask(m: Word32)
    ensures LeadingOnes(m) <= 32
    ensures Contained(HostMask(LeadingOnes(m)), m)
    ensures forall q | 0 <= q <= 32 && Contained(HostMask(q), m) :: HostMask(q) <= HostMask(LeadingOnes(m))
    ensures HostMask(LeadingOnes(m)) == m <==> Contiguous(m)
  {
    AtMost32(m);
    ContainedMasks(LeadingOnes(m), m);
    forall q | 0 <= q <= 32 && Contained(HostMask(q), m)
      ensures HostMask(q) <= HostMask(LeadingOnes(m))
    {
      ContainedMasks(q, m);
      Pow2Monotone(32 - LeadingOnes(m), 32 - q);
    }
    hide LeadingOnes, HostMask, Contained;
    if Contiguous(m) {
      var p :| 0 <= p <= 32 && m == HostMask(p);
      LeadingOnesOfMask(p);
    }
  }

  /** The mask as stored, byte by byte: the number 2^32 - 2^(32-p) in network order, so that
      24 gives 255, 255, 255, 0. */
  lemma MaskBytes(p: nat)
    requires p <= 32
    ensures var b := Le32(Swap32(HostMask(p)));
            && 0x100_0000 * (b[0] as int) + 0x1_0000 * (b[1] as int) + 0x100 * (b[2] as int) + b[3] as int
               == 0x1_0000_0000 - Pow2(32 - p)
            && (p == 8 ==> b == [255, 0, 0, 0])
            && (p == 16 ==> b == [255, 255, 0, 0])
            && (p == 24 ==> b == [255, 255, 255, 0])
            && (p == 32 ==> b == [255, 255, 255, 255])
  {
    var m := Swap32(HostMask(p));
    var b := Le32(m);
    Swap32Involution(HostMask(p));
    assert b == [b[0], b[1], b[2], b[3]];
    ByteOrders(b[0], b[1], b[2], b[3]);
    hide Le32, Swap32, HostMask, FromBe32, Pow2;
    SmallPowers();
    assert HostMask(p) == 0x1_0000_0000 - Pow2(32 - p) by {
      HostMaskIs(p);
    }
    FourDigits(b[0], b[1], b[2], b[3]);
  }

  lemma HostMaskIs(p: nat)
    requires p <= 32
    ensures HostMask(p) == 0x1_0000_0000 - Pow2(32 - p)
  {
  }

  lemma SmallPowers()
    ensures Pow2(0) == 1 && Pow2(8) == 0x100 && Pow2(16) == 0x1_0000 && Pow2(24) == 0x100_0000
  {
    assert Pow2(8) == 0x100;
    assert Pow2(12) == 0x1000;
    assert Pow2(16) == 0x1_0000;
    assert Pow2(20) == 0x10_0000;
  }

  lemma FourDigits(a: Byte, b: Byte, c: Byte, d: Byte)
    ensures var n := 0x100_0000 * (a as int) + 0x1_0000 * (b as int) + 0x100 * (c as int) + d as int;
            && (n == 0xff00_0000 ==> [a, b, c, d] == [255, 0, 0, 0])
            && (n == 0xffff_0000 ==> [a, b, c, d] == [255, 255, 0, 0])
            && (n == 0xffff_ff00 ==> [a, b, c, d] == [255, 255, 255, 0])
            && (n == 0xffff_ffff ==> [a, b, c, d] == [255, 255, 255, 255])
  {
  }
}
