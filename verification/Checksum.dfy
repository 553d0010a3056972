/** The Internet checksum of packet.c: a loop over native 16-bit words into a
    32-bit accumulator, and the folding loop after it.

    WordSum is what the little-endian code adds up; NetworkSum is what the RFCs
    describe (big-endian words, odd tail padded with a zero byte on the right).
 */
module Checksum {
  import opened Bytes

  function WordSum(b: seq<Byte>): nat {
    if |b| == 0 then 0
    else if |b| == 1 then b[0]
    else b[0] + 256 * b[1] + WordSum(b[2..])
  }

  function NetworkSum(b: seq<Byte>): nat {
    if |b| == 0 then 0
    else if |b| == 1 then 256 * b[0]
    else 256 * b[0] + b[1] + NetworkSum(b[2..])
  }

  /** RFC 1071: an odd number of bytes counts as if followed by a zero byte. */
  lemma {:induction false} PadsWithZero(b: seq<Byte>)
    requires |b| % 2 == 1
    ensures WordSum(b + [0]) == WordSum(b) && NetworkSum(b + [0]) == NetworkSum(b)
  {
    if |b| == 1 {
      assert (b + [0])[2..] == [];
    } else {
      PadsWithZero(b[2..]);
      assert (b + [0])[2..] == b[2..] + [0];
    }
  }

  /** Casting out 65535s from n until 16 bits are left. */
  function Canon(n: nat): Word16 {
    if n <= 65535 then n else Canon(n - 65535)
  }

  /** Canon(n) is the one 16-bit value that is congruent to n and is 0 only for 0. */
  lemma {:induction false} CanonMeaning(n: nat, r: Word16)
    ensures r == Canon(n) <==> (r % 65535 == n % 65535 && (r == 0 <==> n == 0))
  {
    if n > 65535 {
      CanonMeaning(n - 65535, r);
    }
  }

  lemma {:induction false} CanonShift(n: nat, q: nat)
    requires n > 0
    ensures Canon(n + 65535 * q) == Canon(n)
  {
    if q > 0 {
      CanonShift(n, q - 1);
    }
  }

  /** The value of checksum() on any buffer and start sum, wrap-around included. */
  function Sum(b: seq<Byte>, start: Word32): Word16 {
    Canon(Wrap32(start + WordSum(b)))
  }

  function FinishSum(sum: Word32): Word16 { 65535 - sum % 65536 }

  lemma TakeWord(b: seq<Byte>, sum: nat)
    requires |b| >= 2
    ensures Wrap32(Wrap32(sum + FromLe16(b[..2])) + WordSum(b[2..])) == Wrap32(sum + WordSum(b))
  {
    WrapAdd(sum + FromLe16(b[..2]), WordSum(b[2..]));
  }

  lemma FoldOnce(sum: Word32)
    ensures Canon(sum % 65536 + sum / 65536) == Canon(sum)
    ensures sum >= 65536 ==> sum % 65536 + sum / 65536 < sum
  {
    if sum >= 65536 {
      var upper16 := sum / 65536;
      assert sum == (sum % 65536 + upper16) + 65535 * upper16;
      CanonShift(sum % 65536 + upper16, upper16);
    }
  }

  method Checksum(buffer: array<Byte>, at: nat, count: nat, startsum: Word32) returns (sum: Word32)
    requires at + count <= buffer.Length
    ensures sum == Sum(buffer[at..at + count], startsum)
  {
    hide Canon, Wrap32;
    ghost var rest := buffer[at..at + count];
    ghost var total := Wrap32(startsum + WordSum(rest));
    var up, left := at, count;
    sum := startsum;
    while left > 1
      invariant at <= up <= at + count && left == at + count - up
      invariant rest == buffer[up..at + count]
      invariant Wrap32(sum + WordSum(rest)) == total
    {
      TakeWord(rest, sum);
      assert rest[..2] == [buffer[up], buffer[up + 1]];
      sum := Wrap32(sum + FromLe16([buffer[up], buffer[up + 1]]));
      rest := rest[2..];
      up, left := up + 2, left - 2;
    }
    WrapSmall(sum);
    if left > 0 {
      sum := Wrap32(sum + buffer[up]);
    }
    assert sum == total;
    var upper16 := sum / 65536;
    while upper16 != 0
      invariant upper16 == sum / 65536
      invariant Canon(sum) == Canon(total)
      decreases sum
    {
      FoldOnce(sum);
      sum := sum % 65536 + upper16;
      upper16 := sum / 65536;
    }
    CanonSmall(sum);
  }

  lemma CanonSmall(n: nat)
    ensures n <= 65535 ==> Canon(n) == n
  {
  }

  lemma WrapSmall(n: nat)
    ensures n < WORD32 ==> Wrap32(n) == n
  {
  }

  // ---------- what the sum means ----------

  lemma {:induction false} CanonAbsorbs(n: nat, m: nat)
    ensures Canon(n) <= n
    ensures Canon(Canon(n) + m) == Canon(n + m)
  {
    if n > 65535 {
      CanonAbsorbs(n - 65535, m);
      CanonAbsorbs(n - 65535, 0);
    }
  }

  lemma {:induction false} WordSumBound(b: seq<Byte>)
    ensures WordSum(b) <= (|b| + 1) / 2 * 65535
  {
    if |b| >= 2 {
      WordSumBound(b[2..]);
    }
  }

  /** 65536 words (131072 bytes) on top of a folded start sum is exactly what the
      32-bit accumulator can hold; one word more can wrap it (see WrapsBeyondLimit). */
  lemma NoWrap(b: seq<Byte>, start: Word16)
    requires |b| <= 131072
    ensures start + WordSum(b) < WORD32
    ensures Sum(b, start) == Canon(start + WordSum(b))
  {
    WordSumBound(b);
  }

  lemma {:induction false} WordSumOnes(words: nat)
    ensures WordSum(seq(2 * words, _ => 255)) == 65535 * words
  {
    if words > 0 {
      var b: seq<Byte> := seq(2 * words, _ => 255);
      assert b[2..] == seq(2 * (words - 1), _ => 255);
      WordSumOnes(words - 1);
    }
  }

  /** The limit of NoWrap is tight: on 131074 bytes of ones the accumulator wraps and
      the result is no longer congruent to the sum of the words. */
  lemma WrapsBeyondLimit(b: seq<Byte>)
    requires b == seq(131074, _ => 255)
    ensures Sum(b, 65535) % 65535 != (65535 + WordSum(b)) % 65535
  {
    assert b == seq(2 * 65537, _ => 255);
    WordSumOnes(65537);
    assert Wrap32(65535 + 65535 * 65537) == 65534;
  }

  /** On every input, the checksum is congruent to the true total exactly when the
      number of times the accumulator wrapped is a multiple of 65535. */
  lemma WrapLoss(b: seq<Byte>, start: Word32)
    ensures var total := start + WordSum(b);
            Sum(b, start) % 65535 == total % 65535 <==> total / WORD32 % 65535 == 0
  {
    var total := start + WordSum(b);
    Wrap32IsMod(total);
    CanonMeaning(Wrap32(total), Sum(b, start));
    WrapCount(total, total % WORD32, total / WORD32);
  }

  lemma WrapCount(total: nat, low: nat, wraps: nat)
    requires total == low + WORD32 * wraps
    ensures low % 65535 == total % 65535 <==> wraps % 65535 == 0
  {
    assert total == low + wraps + 65535 * (65537 * wraps);
    CongruentShift(low, wraps, 65537 * wraps);
  }

  lemma CongruentShift(low: nat, k: nat, q: nat)
    ensures low % 65535 == (low + k + 65535 * q) % 65535 <==> k % 65535 == 0
  {
  }

  lemma {:induction false} WordSumConcat(a: seq<Byte>, b: seq<Byte>)
    requires |a| % 2 == 0
    ensures WordSum(a + b) == WordSum(a) + WordSum(b)
  {
    if |a| == 0 {
      assert a + b == b;
    } else {
      assert (a + b)[2..] == a[2..] + b;
      WordSumConcat(a[2..], b);
    }
  }

  lemma {:induction false} NetworkSumConcat(a: seq<Byte>, b: seq<Byte>)
    requires |a| % 2 == 0
    ensures NetworkSum(a + b) == NetworkSum(a) + NetworkSum(b)
  {
    if |a| == 0 {
      assert a + b == b;
    } else {
      assert (a + b)[2..] == a[2..] + b;
      NetworkSumConcat(a[2..], b);
    }
  }

  lemma {:induction false} ChainPieces(a: seq<Byte>, b: seq<Byte>, ab: seq<Byte>, start: Word32)
    requires WordSum(ab) == WordSum(a) + WordSum(b)
    requires start + WordSum(a) + WordSum(b) < WORD32
    ensures Sum(b, Sum(a, start)) == Sum(ab, start)
  {
    CanonAbsorbs(start + WordSum(a), WordSum(b));
  }

  /** Separate calls that feed one result into the next compute the sum of the
      concatenation, as long as nothing wraps and all but the last piece are even. */
  lemma Chaining(a: seq<Byte>, b: seq<Byte>, start: Word32)
    requires |a| % 2 == 0
    requires start + WordSum(a) + WordSum(b) < WORD32
    ensures Sum(b, Sum(a, start)) == Sum(a + b, start)
  {
    WordSumConcat(a, b);
    ChainPieces(a, b, a + b, start);
  }

  /** One more link of a chain that starts at 0 and sums at most 131072 bytes. */
  lemma ExtendSum(prefix: seq<Byte>, next: seq<Byte>, sum: Word32)
    requires |prefix| % 2 == 0 && |prefix| + |next| <= 131072
    requires sum == Canon(WordSum(prefix))
    ensures Sum(next, sum) == Canon(WordSum(prefix + next))
  {
    NoWrap(prefix, 0);
    NoWrap(prefix + next, 0);
    WordSumConcat(prefix, next);
    Chaining(prefix, next, 0);
  }

  /** Adding the complement of a sum to that sum leaves all ones. */
  lemma {:induction false} ComplementFills(n: nat)
    ensures Canon(n + (65535 - Canon(n))) == 65535
  {
    if n > 65535 {
      ComplementFills(n - 65535);
    }
  }

  lemma {:induction false} SwapSums(b: seq<Byte>) returns (q: nat)
    ensures 256 * WordSum(b) == NetworkSum(b) + 65535 * q
    ensures WordSum(b) == 0 <==> NetworkSum(b) == 0
  {
    if |b| >= 2 {
      q := SwapSums(b[2..]);
      q := q + b[1];
    } else {
      q := 0;
    }
  }

  lemma {:induction false} SwapCanon(n: nat, m: nat, q: int)
    requires 256 * n == m + 65535 * q
    requires n == 0 <==> m == 0
    ensures Swap16(Canon(n)) == Canon(m)
    decreases n
  {
    if n > 65535 {
      SwapCanon(n - 65535, m, q - 256);
    } else if n > 0 {
      SwapSmall(n, n / 256, n % 256);
      var c := Swap16(n);
      CanonMeaning(m, c);
      SwapQuotient(n, m, q, n / 256);
    }
  }

  lemma SwapSmall(n: Word16, hi: Byte, lo: Byte)
    requires n == 256 * hi + lo
    ensures Swap16(n) == 256 * lo + hi
    ensures 256 * n == Swap16(n) + 65535 * hi
  {
  }

  lemma SwapQuotient(n: Word16, m: nat, q: int, hi: Byte)
    requires 256 * n == m + 65535 * q
    requires 256 * n == Swap16(n) + 65535 * hi
    ensures Swap16(n) % 65535 == m % 65535
  {
  }

  /** Byte order independence (section 2(B) of RFC 1071): on every buffer, odd lengths
      included, what the little-endian code computes is the byte swap of the
      network-order sum. */
  lemma ByteOrderIndependence(b: seq<Byte>)
    ensures Swap16(Canon(WordSum(b))) == Canon(NetworkSum(b))
  {
    var q := SwapSums(b);
    SwapCanon(WordSum(b), NetworkSum(b), q);
  }

  lemma ComplementBytes(c: Word16, lo: Byte, hi: Byte)
    requires c == 256 * hi + lo
    ensures Le16(65535 - c) == [255 - lo, 255 - hi]
    ensures Be16(65535 - Swap16(c)) == [255 - lo, 255 - hi]
  {
    assert 65535 - c == 256 * (255 - hi) + (255 - lo);
    assert Swap16(c) == 256 * lo + hi;
    assert 65535 - Swap16(c) == 256 * (255 - lo) + (255 - hi);
  }

  lemma SwappedComplement(c: Word16)
    ensures Le16(FinishSum(c)) == Be16(65535 - Swap16(c))
  {
    ComplementBytes(c, c % 256, c / 256);
  }

  /** Hence the complement stored natively is the network-order complement. */
  lemma StoredChecksum(b: seq<Byte>)
    ensures Le16(FinishSum(Canon(WordSum(b)))) == Be16(65535 - Canon(NetworkSum(b)))
  {
    ByteOrderIndependence(b);
    SwappedComplement(Canon(WordSum(b)));
  }

  /** Replacing one aligned word moves the sum by the difference of the two words. */
  lemma {:induction false} WordSumReplace(b: seq<Byte>, k: nat, lo: Byte, hi: Byte)
    requires 2 * k + 1 < |b|
    ensures WordSum(b[2 * k := lo][2 * k + 1 := hi])
         == WordSum(b) - FromLe16(b[2 * k..2 * k + 2]) + FromLe16([lo, hi])
  {
    var c := b[2 * k := lo][2 * k + 1 := hi];
    if k == 0 {
      assert c[2..] == b[2..];
    } else {
      assert c[2..] == b[2..][2 * (k - 1) := lo][2 * (k - 1) + 1 := hi];
      assert b[2..][2 * (k - 1)..2 * (k - 1) + 2] == b[2 * k..2 * k + 2];
      WordSumReplace(b[2..], k - 1, lo, hi);
    }
  }
}
