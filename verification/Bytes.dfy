/** Octets and the machine words the sources overlay on them.

    The tools are built for a little-endian MIPS, so a field assigned without a
    conversion is stored low byte first (Le*), and one assigned through htons/htonl
    is stored high byte first (Be*).
 */
module Bytes {

  type Byte = x: int | 0 <= x < 0x100
  type Word16 = x: int | 0 <= x < 0x1_0000
  type Word32 = x: int | 0 <= x < 0x1_0000_0000

  const WORD32: int := 0x1_0000_0000

  /** Unsigned 32-bit addition keeps the low 32 bits of a result. */
  function Wrap32(n: nat): Word32 {
    if n < WORD32 then n else Wrap32(n - WORD32)
  }

  lemma {:induction false} Wrap32IsMod(n: nat)
    ensures Wrap32(n) == n % WORD32
  {
    if n >= WORD32 {
      Wrap32IsMod(n - WORD32);
    }
  }

  lemma {:induction false} WrapAdd(n: nat, m: nat)
    ensures Wrap32(Wrap32(n) + m) == Wrap32(n + m)
  {
    if n >= WORD32 {
      WrapAdd(n - WORD32, m);
    }
  }

  function Le16(v: Word16): seq<Byte> { [v % 256, v / 256] }

  function Be16(v: Word16): seq<Byte> { [v / 256, v % 256] }

  function FromLe16(b: seq<Byte>): Word16
    requires |b| == 2
  {
    b[0] as int + 256 * (b[1] as int)
  }

  function FromBe16(b: seq<Byte>): Word16
    requires |b| == 2
  {
    256 * (b[0] as int) + b[1] as int
  }

  function Le32(v: Word32): (b: seq<Byte>)
    ensures |b| == 4 && FromLe32(b) == v
  {
    var v1 := v / 256;
    var v2 := v1 / 256;
    [v % 256, v1 % 256, v2 % 256, v2 / 256]
  }

  function FromLe32(b: seq<Byte>): Word32
    requires |b| == 4
  {
    b[0] as int + 256 * (b[1] as int + 256 * (b[2] as int + 256 * (b[3] as int)))
  }

  function FromBe32(b: seq<Byte>): Word32
    requires |b| == 4
  {
    b[3] as int + 256 * (b[2] as int + 256 * (b[1] as int + 256 * (b[0] as int)))
  }

  /** What ntohs and htons compute. */
  function Swap16(v: Word16): Word16 { v % 256 * 256 + v / 256 }

  /** What ntohl and htonl compute. */
  function Swap32(v: Word32): Word32 { FromBe32(Le32(v)) }

  lemma LowDigit(lo: Byte, rest: nat)
    ensures (lo + 256 * rest) % 256 == lo && (lo + 256 * rest) / 256 == rest
  {
  }

  lemma Le32Inverse(b: seq<Byte>)
    requires |b| == 4
    ensures Le32(FromLe32(b)) == b
  {
    var v2: nat := b[2] as int + 256 * (b[3] as int);
    var v1: nat := b[1] as int + 256 * v2;
    LowDigit(b[2], b[3]);
    LowDigit(b[1], v2);
    LowDigit(b[0], v1);
  }

  /** The byte orders, digit by digit. */
  lemma ByteOrders(a: Byte, b: Byte, c: Byte, d: Byte)
    ensures FromBe32([a, b, c, d]) == 0x100_0000 * a + 0x1_0000 * b + 0x100 * c + d
    ensures FromLe32([a, b, c, d]) == a + 0x100 * b + 0x1_0000 * c + 0x100_0000 * d
    ensures FromBe16([a, b]) == 0x100 * a + b && FromLe16([a, b]) == a + 0x100 * b
    ensures Swap32(FromLe32([a, b, c, d])) == FromLe32([d, c, b, a])
    ensures Swap16(FromLe16([a, b])) == FromLe16([b, a])
  {
    Le32Inverse([a, b, c, d]);
  }

  lemma Regroup(a: seq<Byte>, b: seq<Byte>, c: seq<Byte>)
    ensures (a + b) + c == a + (b + c)
  {
  }

  /** A slice of a slice. */
  lemma Window(a: seq<Byte>, from: nat, to: nat, i: nat, j: nat)
    requires from <= to <= |a| && i <= j <= to - from
    ensures a[from..to][i..j] == a[from + i..from + j]
  {
    var inner, outer := a[from..to][i..j], a[from + i..from + j];
    assert |inner| == |outer|;
    assert forall k | 0 <= k < |inner| :: inner[k] == a[from + i + k] && outer[k] == a[from + i + k];
    assert inner == outer;
  }

  /** Neighbouring slices. */
  lemma Join(a: seq<Byte>, i: nat, j: nat, k: nat)
    requires i <= j <= k <= |a|
    ensures a[i..j] + a[j..k] == a[i..k]
  {
    var whole, parts := a[i..k], a[i..j] + a[j..k];
    assert |whole| == |parts|;
    assert forall n | 0 <= n < |whole| :: whole[n] == a[i + n] && parts[n] == a[i + n];
    assert whole == parts;
  }

  function Zeros(n: nat): (z: seq<Byte>)
    ensures |z| == n
  {
    seq(n, _ => 0)
  }

  function Low16(v: Word32): Word16 { v % 0x1_0000 }

  /** Stores into a field of a C struct laid out in a: the result of htons, a plain
      16-bit assignment, and a memcpy. */
  method StoreBe16(a: array<Byte>, at: nat, v: Word16)
    requires at + 2 <= a.Length
    modifies a
    ensures a[at..at + 2] == Be16(v)
    ensures forall i | 0 <= i < a.Length && !(at <= i < at + 2) :: a[i] == old(a[i])
  {
    a[at] := v / 256;
    a[at + 1] := v % 256;
  }

  method StoreLe16(a: array<Byte>, at: nat, v: Word16)
    requires at + 2 <= a.Length
    modifies a
    ensures a[at..at + 2] == Le16(v)
    ensures forall i | 0 <= i < a.Length && !(at <= i < at + 2) :: a[i] == old(a[i])
  {
    a[at] := v % 256;
    a[at + 1] := v / 256;
  }

  method StoreBytes(a: array<Byte>, at: nat, s: seq<Byte>)
    requires at + |s| <= a.Length
    modifies a
    ensures a[at..at + |s|] == s
    ensures forall i | 0 <= i < a.Length && !(at <= i < at + |s|) :: a[i] == old(a[i])
  {
    forall i | 0 <= i < |s| {
      a[at + i] := s[i];
    }
  }
}
