/** The in-place sample conversions of wav.c between packed 24-bit samples and 24-bit
    samples in 32-bit words. */
module Wav {
  import opened Bytes

  /** Each three bytes followed by a zero byte; an incomplete last sample is dropped. */
  function Widen(s: seq<Byte>): seq<Byte> {
    if |s| < 3 then [] else s[..3] + [0] + Widen(s[3..])
  }

  /** The low three bytes of each four. */
  function Narrow(s: seq<Byte>): seq<Byte> {
    if |s| < 4 then [] else s[..3] + Narrow(s[4..])
  }

  lemma WidenHead(s: seq<Byte>)
    requires |s| >= 3
    ensures var w := Widen(s);
            |w| >= 4 && w[0] == s[0] && w[1] == s[1] && w[2] == s[2] && w[3] == 0 && w[4..] == Widen(s[3..])
  {
  }

  lemma NarrowHead(s: seq<Byte>)
    requires |s| >= 4
    ensures var w := Narrow(s);
            |w| >= 3 && w[0] == s[0] && w[1] == s[1] && w[2] == s[2] && w[3..] == Narrow(s[4..])
  {
  }

  /** Where the bytes of the widening come from. */
  lemma {:induction false} WidenAt(s: seq<Byte>, n: nat, k: nat)
    requires |s| == 3 * n && k < n
    ensures |Widen(s)| == 4 * n
    ensures Widened(s, Widen(s), k)
  {
    WidenLength(s);
    WidenHead(s);
    hide Widen;
    if k > 0 {
      var t, w, j := s[3..], Widen(s)[4..], k - 1;
      WidenAt(t, n - 1, j);
      assert w[4 * j] == t[3 * j] && w[4 * j + 1] == t[3 * j + 1] && w[4 * j + 2] == t[3 * j + 2] && w[4 * j + 3] == 0;
    }
  }

  lemma {:induction false} NarrowAt(s: seq<Byte>, n: nat, k: nat)
    requires |s| == 4 * n && k < n
    ensures |Narrow(s)| == 3 * n
    ensures Narrowed(s, Narrow(s), k)
  {
    NarrowLength(s);
    NarrowHead(s);
    hide Narrow;
    if k > 0 {
      var t, w, j := s[4..], Narrow(s)[3..], k - 1;
      NarrowAt(t, n - 1, j);
      assert w[3 * j] == t[4 * j] && w[3 * j + 1] == t[4 * j + 1] && w[3 * j + 2] == t[4 * j + 2];
    }
  }

  /** Sample k of was, three bytes, as a word of now, and the reverse. */
  predicate Widened(was: seq<Byte>, now: seq<Byte>, k: nat)
    requires 4 * k + 3 < |now| && 3 * k + 2 < |was|
  {
    && now[4 * k] == was[3 * k] && now[4 * k + 1] == was[3 * k + 1]
    && now[4 * k + 2] == was[3 * k + 2] && now[4 * k + 3] == 0
  }

  predicate Narrowed(was: seq<Byte>, now: seq<Byte>, k: nat)
    requires 4 * k + 3 < |was| && 3 * k + 2 < |now|
  {
    now[3 * k] == was[4 * k] && now[3 * k + 1] == was[4 * k + 1] && now[3 * k + 2] == was[4 * k + 2]
  }

  /** A sequence given sample by sample is the widening. */
  lemma IsWiden(s: seq<Byte>, w: seq<Byte>, n: nat)
    requires |s| == 3 * n && |w| == 4 * n
    requires forall k | 0 <= k < n :: Widened(s, w, k)
    ensures w == Widen(s)
  {
    hide Widen;
    WidenLength(s);
    forall j | 0 <= j < 4 * n
      ensures w[j] == Widen(s)[j]
    {
      var k := j / 4;
      WidenAt(s, n, k);
      assert Widened(s, w, k);
      assert j == 4 * k || j == 4 * k + 1 || j == 4 * k + 2 || j == 4 * k + 3;
    }
  }

  lemma IsNarrow(s: seq<Byte>, w: seq<Byte>, n: nat)
    requires |s| == 4 * n && |w| == 3 * n
    requires forall k | 0 <= k < n :: Narrowed(s, w, k)
    ensures w == Narrow(s)
  {
    hide Narrow;
    NarrowLength(s);
    forall j | 0 <= j < 3 * n
      ensures w[j] == Narrow(s)[j]
    {
      var k := j / 3;
      NarrowAt(s, n, k);
      assert Narrowed(s, w, k);
      assert j == 3 * k || j == 3 * k + 1 || j == 3 * k + 2;
    }
  }

  // ---------- the code ----------

  /** The three byte moves inside both loops. Neither loop lets a byte be overwritten
      before it is read: the destination is behind the source or past it. */
  method MoveSample(data: array<Byte>, dst: nat, src: nat)
    requires dst + 3 <= data.Length && src + 3 <= data.Length
    requires dst <= src || src + 3 <= dst
    modifies data
    ensures data[dst] == old(data[src]) && data[dst + 1] == old(data[src + 1]) && data[dst + 2] == old(data[src + 2])
    ensures forall j | 0 <= j < data.Length && !(dst <= j < dst + 3) :: data[j] == old(data[j])
  {
    data[dst] := data[src];
    data[dst + 1] := data[src + 1];
    data[dst + 2] := data[src + 2];
  }

  /** Works from the last sample down; samples 0 to 2, whose source and destination
      overlap, go through a temporary. The closing assertions of the source fail on
      fewer than three samples. */
  method WavExpand24bitTo32bit(data: array<Byte>, length: nat)
    requires length / 3 >= 3 && length / 3 * 4 <= data.Length
    modifies data
    ensures data[..length / 3 * 4] == Widen(old(data[..length / 3 * 3]))
    ensures data[length / 3 * 4..] == old(data[length / 3 * 4..])
  {
    hide Widen, Widened;
    var len := length;
    if len % 3 != 0 {
      len := len - len % 3;
    }
    ghost var n := length / 3;
    assert len == 3 * n && len / 3 == n;
    ghost var was := data[..];
    var dst, src := ExpandDown(data, len, n);
    ghost var mid := data[..];
    ExpandFirstThree(data);
    src := src - 6;
    dst := dst - 8;
    assert src == 0;
    assert dst == 0;
    JoinWidened(was, mid, data[..], n);
    assert data[..][..4 * n] == data[..4 * n];
  }

  lemma JoinWidened(was: seq<Byte>, mid: seq<Byte>, now: seq<Byte>, n: nat)
    requires |was| == |mid| == |now| >= 4 * n && n >= 3
    requires mid[..12] == was[..12] && now[12..] == mid[12..]
    requires forall k | 3 <= k < n :: Widened(was, mid, k)
    requires Widened(mid, now, 0) && Widened(mid, now, 1) && Widened(mid, now, 2)
    ensures now[..4 * n] == Widen(was[..3 * n])
  {
    forall k | 0 <= k < n
      ensures Widened(was[..3 * n], now[..4 * n], k)
    {
      if k >= 3 {
        assert Widened(was, mid, k);
        assert forall j | 4 * k <= j < 4 * k + 4 :: now[j] == now[12..][j - 12] == mid[12..][j - 12] == mid[j];
      } else {
        assert Widened(mid, now, k);
        assert forall j | 3 * k <= j < 3 * k + 3 :: mid[j] == mid[..12][j] == was[..12][j] == was[j];
      }
    }
    IsWiden(was[..3 * n], now[..4 * n], n);
  }

  /** The first loop: all samples but the first three. */
  method ExpandDown(data: array<Byte>, len: nat, ghost n: nat) returns (dst: nat, src: nat)
    requires len == 3 * n && n >= 3 && 4 * n <= data.Length
    modifies data
    ensures dst == 8 && src == 6
    ensures forall j | 0 <= j < 12 || 4 * n <= j < data.Length :: data[j] == old(data[j])
    ensures forall k | 3 <= k < n :: Widened(old(data[..]), data[..], k)
  {
    hide Widened;
    ghost var was := data[..];
    dst := len / 3 * 4 - 4;
    src := len - 3;
    var i := 0;
    while i < len / 3 - 3
      invariant 0 <= i <= n - 3
      invariant dst == 4 * (n - i) - 4 && src == 3 * (n - i) - 3
      invariant forall j | 0 <= j < dst + 4 || 4 * n <= j < data.Length :: data[j] == was[j]
      invariant forall k | n - i <= k < n :: Widened(was, data[..], k)
    {
      ghost var before := data[..];
      MoveSample(data, dst, src);
      data[dst + 3] := 0;
      MoreWidened(was, before, data[..], n, n - i - 1);
      src := src - 3;
      dst := dst - 4;
      i := i + 1;
    }
  }

  lemma MoreWidened(was: seq<Byte>, before: seq<Byte>, now: seq<Byte>, n: nat, k: nat)
    requires |was| == |before| == |now| >= 4 * n && k < n
    requires forall j | k < j < n :: Widened(was, before, j)
    requires forall i | 4 * k + 4 <= i < 4 * n :: now[i] == before[i]
    requires now[4 * k] == was[3 * k] && now[4 * k + 1] == was[3 * k + 1] && now[4 * k + 2] == was[3 * k + 2]
    requires now[4 * k + 3] == 0
    ensures forall j | k <= j < n :: Widened(was, now, j)
  {
    forall j | k < j < n
      ensures Widened(was, now, j)
    {
      assert Widened(was, before, j);
    }
  }

  method ExpandFirstThree(data: array<Byte>)
    requires data.Length >= 12
    modifies data
    ensures Widened(old(data[..]), data[..], 0) && Widened(old(data[..]), data[..], 1)
    ensures Widened(old(data[..]), data[..], 2)
    ensures forall j | 12 <= j < data.Length :: data[j] == old(data[j])
  {
    var tmpSample := data[..9];
    data[0] := tmpSample[0];
    data[1] := tmpSample[1];
    data[2] := tmpSample[2];
    data[3] := 0;
    data[4] := tmpSample[3];
    data[5] := tmpSample[4];
    data[6] := tmpSample[5];
    data[7] := 0;
    data[8] := tmpSample[6];
    data[9] := tmpSample[7];
    data[10] := tmpSample[8];
    data[11] := 0;
  }

  /** Works from the first sample up; a last incomplete group of four is read whole. */
  method Wav32bitTo24bit(data: array<Byte>, len: nat)
    requires (len + 3) / 4 * 4 <= data.Length
    modifies data
    ensures data[..(len + 3) / 4 * 3] == Narrow(old(data[..(len + 3) / 4 * 4]))
    ensures data[(len + 3) / 4 * 3..] == old(data[(len + 3) / 4 * 3..])
  {
    hide Narrow, Narrowed;
    ghost var was := data[..];
    ghost var n := (len + 3) / 4;
    ghost var k := 0;
    var dst, src, i := 0, 0, 0;
    while i < len
      invariant 0 <= k <= n && i == src == 4 * k && dst == 3 * k
      invariant forall j | 0 <= j < k :: Narrowed(was, data[..], j)
      invariant forall j | dst <= j < data.Length :: data[j] == was[j]
    {
      ghost var before := data[..];
      MoveSample(data, dst, src);
      MoreNarrowed(was, before, data[..], k);
      dst := dst + 3;
      src := src + 4;
      i := i + 4;
      k := k + 1;
    }
    AllNarrowed(was, data[..], n);
    assert data[..3 * n] == data[..][..3 * n];
    assert data[3 * n..] == was[3 * n..];
  }

  lemma MoreNarrowed(was: seq<Byte>, before: seq<Byte>, now: seq<Byte>, k: nat)
    requires |was| == |before| == |now| && 4 * k + 4 <= |was|
    requires forall j | 0 <= j < k :: Narrowed(was, before, j)
    requires forall i | 0 <= i < 3 * k :: now[i] == before[i]
    requires now[3 * k] == was[4 * k] && now[3 * k + 1] == was[4 * k + 1] && now[3 * k + 2] == was[4 * k + 2]
    ensures forall j | 0 <= j < k + 1 :: Narrowed(was, now, j)
  {
    forall j | 0 <= j < k
      ensures Narrowed(was, now, j)
    {
      assert Narrowed(was, before, j);
    }
  }

  lemma AllNarrowed(was: seq<Byte>, now: seq<Byte>, n: nat)
    requires |was| == |now| >= 4 * n
    requires forall j | 0 <= j < n :: Narrowed(was, now, j)
    ensures now[..3 * n] == Narrow(was[..4 * n])
  {
    forall j | 0 <= j < n
      ensures Narrowed(was[..4 * n], now[..3 * n], j)
    {
      assert Narrowed(was, now, j);
    }
    IsNarrow(was[..4 * n], now[..3 * n], n);
  }

  // ---------- the conversions undo each other ----------

  lemma {:induction false} NarrowAfterWiden(s: seq<Byte>)
    requires |s| % 3 == 0
    ensures Narrow(Widen(s)) == s
  {
    if |s| >= 3 {
      NarrowAfterWiden(s[3..]);
      assert Widen(s)[4..] == Widen(s[3..]);
      assert Widen(s)[..3] == s[..3];
    }
  }

  /** Widening what was narrowed restores it exactly when every fourth byte was 0. */
  lemma {:induction false} WidenAfterNarrow(s: seq<Byte>)
    requires |s| % 4 == 0
    ensures Widen(Narrow(s)) == s <==> forall k | 0 <= k < |s| / 4 :: s[4 * k + 3] == 0
  {
    if |s| >= 4 {
      var t, w := s[4..], Widen(Narrow(s));
      WidenAfterNarrow(t);
      assert Narrow(s)[3..] == Narrow(t) && Narrow(s)[..3] == s[..3];
      assert w[4..] == Widen(Narrow(t)) && w[..4] == s[..3] + [0];
      assert s == s[..3] + [s[3]] + t;
      assert w == s[..3] + [0] + w[4..];
      if w == s {
        assert w[4..] == t && w[3] == s[3];
        forall k | 0 <= k < |s| / 4
          ensures s[4 * k + 3] == 0
        {
          if k > 0 {
            assert t[4 * (k - 1) + 3] == 0;
          }
        }
      } else if forall k | 0 <= k < |s| / 4 :: s[4 * k + 3] == 0 {
        assert s[4 * 0 + 3] == 0;
        forall k | 0 <= k < |t| / 4
          ensures t[4 * k + 3] == 0
        {
          assert s[4 * (k + 1) + 3] == 0;
        }
      }
    }
  }

  /** Widening whole samples chunk by chunk is widening the whole. */
  lemma {:induction false} WidenConcat(s: seq<Byte>, t: seq<Byte>)
    requires |s| % 3 == 0
    ensures Widen(s + t) == Widen(s) + Widen(t)
  {
    if |s| == 0 {
      assert s + t == t;
    } else {
      assert (s + t)[3..] == s[3..] + t;
      WidenConcat(s[3..], t);
    }
  }

  lemma {:induction false} WidenLength(s: seq<Byte>)
    ensures |Widen(s)| == 4 * (|s| / 3)
  {
    if |s| >= 3 {
      WidenLength(s[3..]);
    }
  }

  lemma {:induction false} WidenWhole(s: seq<Byte>)
    ensures Widen(s) == Widen(s[..|s| / 3 * 3])
  {
    if |s| >= 3 {
      var t := s[3..];
      WidenWhole(t);
      assert s[..|s| / 3 * 3][3..] == t[..|t| / 3 * 3];
    }
  }

  lemma {:induction false} NarrowConcat(s: seq<Byte>, t: seq<Byte>)
    requires |s| % 4 == 0
    ensures Narrow(s + t) == Narrow(s) + Narrow(t)
  {
    if |s| == 0 {
      assert s + t == t;
    } else {
      assert (s + t)[4..] == s[4..] + t;
      NarrowConcat(s[4..], t);
    }
  }

  lemma {:induction false} NarrowLength(s: seq<Byte>)
    ensures |Narrow(s)| == 3 * (|s| / 4)
  {
    if |s| >= 4 {
      NarrowLength(s[4..]);
    }
  }

  lemma {:induction false} NarrowWhole(s: seq<Byte>)
    ensures Narrow(s) == Narrow(s[..|s| / 4 * 4])
  {
    if |s| >= 4 {
      var t := s[4..];
      NarrowWhole(t);
      assert s[..|s| / 4 * 4][4..] == t[..|t| / 4 * 4];
    }
  }
}
