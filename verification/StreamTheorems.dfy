/** When the stream loops of sndkit.c succeed and what they then write. */
module StreamTheorems {
  import opened Bytes
  import opened Streams
  import opened StreamRuns
  import opened Wav

  // ---------- chunks and 24-bit samples ----------

  lemma {:induction false} StreamedPlain(s: seq<Byte>, lens: seq<nat>)
    requires Sum(lens) <= |s|
    ensures Streamed(s, lens, Plain) == s[..Sum(lens)]
    decreases |lens|
  {
    if lens != [] {
      StreamedPlain(s[lens[0]..], lens[1..]);
      assert s[..lens[0]] + s[lens[0]..][..Sum(lens[1..])] == s[..Sum(lens)];
    }
  }

  lemma {:induction false} StreamedPrefix(s: seq<Byte>, lens: seq<nat>, conv: Conversion)
    requires Sum(lens) <= |s|
    ensures Streamed(s, lens, conv) == Streamed(s[..Sum(lens)], lens, conv)
    decreases |lens|
  {
    if lens != [] {
      var a, rest, f := lens[0], lens[1..], s[..Sum(lens)];
      StreamedPrefix(s[a..], rest, conv);
      assert f[..a] == s[..a] && f[a..] == s[a..][..Sum(rest)];
    }
  }

  /** Every read but the last holds whole samples. */
  predicate WholeButLast(lens: seq<nat>) {
    forall i | 0 <= i < |lens| - 1 :: lens[i] % 3 == 0
  }

  /** Then the widened stream does not depend on the chunking. */
  lemma {:induction false} WholeReads(s: seq<Byte>, lens: seq<nat>)
    requires Sum(lens) == |s| && WholeButLast(lens)
    ensures Streamed(s, lens, Expand) == Widen(s)
    decreases |lens|
  {
    if lens != [] {
      var a, rest := lens[0], lens[1..];
      assert s == s[..a] + s[a..];
      if rest == [] {
        assert s[..a] == s && Streamed(s[a..], rest, Expand) == [];
      } else {
        assert WholeButLast(rest) by {
          assert forall i | 0 <= i < |rest| - 1 :: rest[i] == lens[i + 1];
        }
        WholeReads(s[a..], rest);
        assert lens[0] % 3 == 0;
        WidenConcat(s[..a], s[a..]);
      }
    }
  }

  /** Contents that show a split sample: a single 1, in the first sample that is split. */
  function SplitWitness(lens: seq<nat>): (s: seq<Byte>)
    ensures |s| == Sum(lens)
    decreases |lens|
  {
    if lens == [] then []
    else if lens[0] % 3 == 0 then Zeros(lens[0]) + SplitWitness(lens[1..])
    else Zeros(lens[0] / 3 * 3) + [1] + Zeros(lens[0] % 3 - 1 + Sum(lens[1..]))
  }

  lemma {:induction false} SplitReads(lens: seq<nat>)
    requires !WholeButLast(lens) && forall l | l in lens :: l >= 9
    ensures Streamed(SplitWitness(lens), lens, Expand) != Widen(SplitWitness(lens))
    decreases |lens|
  {
    var a, rest, s := lens[0], lens[1..], SplitWitness(lens);
    if a % 3 == 0 {
      var i :| 0 <= i < |lens| - 1 && lens[i] % 3 != 0;
      assert rest[i - 1] % 3 != 0;
      assert forall l | l in rest :: l in lens;
      SplitReads(rest);
      var z, w := Zeros(a), SplitWitness(rest);
      assert s[..a] == z && s[a..] == w;
      WidenConcat(z, w);
      SameFront(Widen(z), Widen(w), Streamed(w, rest, Expand));
    } else {
      assert rest[0] in lens;
      SplitSample(a, rest, s);
    }
  }

  lemma SameFront(a: seq<Byte>, b: seq<Byte>, c: seq<Byte>)
    requires b != c
    ensures a + b != a + c
  {
    assert (a + b)[|a|..] == b;
    assert (a + c)[|a|..] == c;
  }

  /** The byte at 4 * (a / 3) comes from a's last, incomplete sample in one stream and
      from the next read in the other. */
  lemma SplitSample(a: nat, rest: seq<nat>, s: seq<Byte>)
    requires a % 3 != 0 && rest != [] && rest[0] >= 3
    requires s == Zeros(a / 3 * 3) + [1] + Zeros(a % 3 - 1 + Sum(rest))
    ensures Sum([a] + rest) == |s| && Streamed(s, [a] + rest, Expand) != Widen(s)
  {
    SumCons(a, rest);
    SampleWidened(s, a / 3);
    SampleDropped(a, rest, s);
  }

  lemma SampleWidened(s: seq<Byte>, q: nat)
    requires 3 * q + 3 <= |s| && s[3 * q] == 1
    ensures |Widen(s)| > 4 * q && Widen(s)[4 * q] == 1
  {
    assert s == s[..3 * q] + s[3 * q..];
    WidenConcat(s[..3 * q], s[3 * q..]);
    WidenLength(s[..3 * q]);
    assert Widen(s[3 * q..])[0] == s[3 * q..][0] == 1;
  }

  lemma SampleDropped(a: nat, rest: seq<nat>, s: seq<Byte>)
    requires rest != [] && rest[0] >= 3 && |s| == a + Sum(rest) && s[a] == 0
    ensures Sum([a] + rest) == |s|
    ensures |Streamed(s, [a] + rest, Expand)| > 4 * (a / 3) && Streamed(s, [a] + rest, Expand)[4 * (a / 3)] == 0
  {
    SumCons(a, rest);
    assert ([a] + rest)[1..] == rest;
    WidenLength(s[..a]);
    var next := s[a..][..rest[0]];
    assert Widen(next)[0] == next[0] == s[a] == 0;
    assert Streamed(s[a..], rest, Expand)[0] == 0;
  }

  /** For reads of at least three samples: the device gets the widening of the input,
      whatever the input, if and only if every read but the last holds whole samples. */
  lemma ChunkingExact(lens: seq<nat>)
    requires forall l | l in lens :: l >= 9
    ensures WholeButLast(lens)
       <==> forall s: seq<Byte> | |s| == Sum(lens) :: Streamed(s, lens, Expand) == Widen(s)
  {
    if WholeButLast(lens) {
      forall s: seq<Byte> | |s| == Sum(lens)
        ensures Streamed(s, lens, Expand) == Widen(s)
      {
        WholeReads(s, lens);
      }
    } else {
      SplitReads(lens);
    }
  }

  // ---------- when a loop succeeds ----------

  lemma {:induction false} SoundMeaning(lens: seq<nat>, conv: Conversion)
    ensures Sound(lens, conv) == lens <==> conv != Expand || forall l | l in lens :: l >= 9
    decreases |lens|
  {
    if lens != [] {
      var a, rest := lens[0], lens[1..];
      SoundMeaning(rest, conv);
      assert lens == [a] + rest;
      assert forall l :: l in lens <==> l == a || l in rest;
      if TooShort(a, conv) {
        assert a in lens && a < 9;
      } else {
        SameAfter(a, Sound(rest, conv), rest);
        assert conv == Expand ==> a >= 9;
      }
    }
  }

  lemma {:induction false} NoErrorsDeliver(wplan: seq<int>, lens: seq<nat>, conv: Conversion)
    requires NoErrors(wplan)
    ensures Deliverable(wplan, lens, conv)
    decreases |lens|
  {
    if lens != [] {
      var n := Rendered(lens[0], conv);
      WriteFailsExactly(wplan, n, n);
      WriteLeaves(wplan, n);
      NoErrorMet(wplan, WriteRun(wplan, n).rest);
      NoErrorsDeliver(WriteRun(wplan, n).rest, lens[1..], conv);
    }
  }

  lemma {:induction false} NoErrorsRead(avail: nat, rplan: seq<int>, n: nat, want: int, forever: bool)
    requires NoErrors(rplan)
    ensures !ReadLens(avail, rplan, n, want, forever).failed
    decreases |rplan|, avail
  {
    var c := Count(rplan, n, avail);
    ErrorNow(rplan);
    NoErrorMet(rplan, Next(rplan));
    if (forever || want > 0) && c > 0 {
      NoErrorsRead(avail - c, Next(rplan), n, if forever then want else want - c, forever);
    }
  }

  predicate SomeShort(lens: seq<nat>) { exists l :: l in lens && l < 9 }

  /** Without errors a loop finishes and has written the renderings of all its reads;
      only a widening one aborts, if and only if one of the reads is shorter than three
      samples. */
  lemma TransferSucceeds(s: seq<Byte>, rplan: seq<int>, wplan: seq<int>, n: nat, want: int, forever: bool,
                         conv: Conversion)
    requires NoErrors(rplan) && NoErrors(wplan)
    ensures var t := Transfer(s, rplan, wplan, n, want, forever, conv);
            var lens := ReadLens(|s|, rplan, n, want, forever).lens;
            && (t.end == Finished || t.end == Aborted)
            && (t.end == Aborted <==> conv == Expand && SomeShort(lens))
            && Sum(lens) <= |s|
            && (t.end == Finished ==> t.written == Streamed(s, lens, conv) && t.used == Sum(lens))
  {
    var lens := ReadLens(|s|, rplan, n, want, forever).lens;
    TransferExact(s, rplan, wplan, n, want, forever, conv);
    SoundMeaning(lens, conv);
    NoErrorsDeliver(wplan, Sound(lens, conv), conv);
    NoErrorsRead(|s|, rplan, n, want, forever);
  }

  /** Reads that fill a buffer of whole samples, as far as there is input. */
  lemma {:induction false} FullReads(avail: nat, rplan: seq<int>, n: nat, want: int, forever: bool)
    requires n % 3 == 0 && forall e | e in rplan :: e >= n
    ensures WholeButLast(ReadLens(avail, rplan, n, want, forever).lens)
    decreases |rplan|, avail
  {
    var c := Count(rplan, n, avail);
    if (forever || want > 0) && c > 0 {
      var more := if forever then want else want - c;
      var rest := ReadLens(avail - c, Next(rplan), n, more, forever).lens;
      assert forall e | e in Next(rplan) :: e in rplan;
      FullReads(avail - c, Next(rplan), n, more, forever);
      assert rplan != [] ==> rplan[0] in rplan;
      assert c < n ==> c == avail && rest == [];
      assert forall i | 0 < i < |rest| :: ([c] + rest)[i] == rest[i - 1];
    }
  }

  /** What is left after as many full reads as possible, avail % n. */
  function Tail(avail: nat, n: nat): (r: nat)
    requires n > 0
    ensures r <= avail && r < n
  {
    if avail < n then avail else Tail(avail - n, n)
  }

  lemma {:induction false} TailIsMod(avail: nat, n: nat)
    requires n > 0
    ensures Tail(avail, n) == avail % n
    decreases avail
  {
    if avail >= n {
      TailIsMod(avail - n, n);
      var q := (avail - n) / n;
      assert avail == (q + 1) * n + (avail - n) % n;
      UniqueMod(avail, n, q + 1, (avail - n) % n);
    } else {
      UniqueMod(avail, n, 0, avail);
    }
  }

  lemma UniqueMod(a: nat, n: nat, q: nat, r: nat)
    requires r < n && a == q * n + r
    ensures a % n == r
  {
    var d, m: int := a / n - q, n;
    assert a == m * (a / n) + a % n;
    assert m * d == r - a % n;
    assert d >= 1 ==> m * d >= m;
    assert d <= -1 ==> m * d + m <= 0;
  }

  lemma ShortCons(c: nat, lens: seq<nat>)
    ensures SomeShort([c] + lens) <==> c < 9 || SomeShort(lens)
  {
    assert c in [c] + lens;
    assert forall l :: l in [c] + lens <==> l == c || l in lens;
    if SomeShort(lens) {
      var l :| l in lens && l < 9;
      assert l in [c] + lens;
    }
  }

  /** Full reads into a buffer of at least three samples: only the remainder at the end of
      the input can be too short. */
  lemma {:induction false} ShortFullRead(avail: nat, rplan: seq<int>, n: nat, want: int, forever: bool)
    requires n >= 9 && forall e | e in rplan :: e >= n
    ensures SomeShort(ReadLens(avail, rplan, n, want, forever).lens)
       <==> 0 < Tail(avail, n) < 9 && (forever || want > avail - Tail(avail, n))
    decreases avail
  {
    hide ReadLens, SomeShort;
    var c := Count(rplan, n, avail);
    FullCount(rplan, n, avail);
    ReadLensUnfold(avail, rplan, n, want, forever);
    NoneShort();
    if (forever || want > 0) && avail > 0 {
      var more := if forever then want else want - c;
      ShortFullRead(avail - c, Next(rplan), n, more, forever);
      ShortCons(c, ReadLens(avail - c, Next(rplan), n, more, forever).lens);
    }
  }

  lemma NoneShort()
    ensures !SomeShort([])
  {
  }

  lemma FullCount(rplan: seq<int>, n: nat, avail: nat)
    requires forall e | e in rplan :: e >= n
    ensures Count(rplan, n, avail) == Min(n, avail)
    ensures forall e | e in Next(rplan) :: e >= n
  {
    assert rplan != [] ==> rplan[0] in rplan;
    assert forall e | e in Next(rplan) :: e in rplan;
  }

  /** Playing 24-bit samples with full reads of whole samples: unless the last read is
      shorter than three samples, the device gets the widening of all that is to be
      played. */
  lemma FullReadsPlay(s: seq<Byte>, rplan: seq<int>, wplan: seq<int>, n: nat, want: int, forever: bool)
    requires n % 3 == 0 && n >= 9 && (forall e | e in rplan :: e >= n) && NoErrors(wplan)
    ensures var t := Transfer(s, rplan, wplan, n, want, forever, Expand);
            if 0 < |s| % n < 9 && (forever || want > |s| - |s| % n) then t.end == Aborted
            else t.end == Finished && Goal(|s|, want, forever) <= t.used <= |s| && t.written == Widen(s[..t.used])
  {
    hide Transfer, ReadLens, StopsBefore;
    var lens := ReadLens(|s|, rplan, n, want, forever).lens;
    TransferSucceeds(s, rplan, wplan, n, want, forever, Expand);
    ShortFullRead(|s|, rplan, n, want, forever);
    TailIsMod(|s|, n);
    FullReads(|s|, rplan, n, want, forever);
    ReadsReachGoal(|s|, rplan, n, want, forever);
    FullNeverStops(rplan, n, Goal(|s|, want, forever));
    StreamedPrefix(s, lens, Expand);
    WholeReads(s[..Sum(lens)], lens);
  }

  lemma FullNeverStops(rplan: seq<int>, n: nat, target: int)
    requires n > 0 && forall e | e in rplan :: e >= n
    ensures !StopsBefore(rplan, 1, n, target)
  {
    assert forall k | 0 <= k < |rplan| :: rplan[k] in rplan;
  }

  /** For given read and write schedules, the stream the
      device gets is the widening of what is read, for all contents, if and only if every
      read but the last holds whole samples. */
  lemma StreamExact(len: nat, rplan: seq<int>, wplan: seq<int>, n: nat, want: int, forever: bool)
    requires NoErrors(rplan) && NoErrors(wplan)
    requires forall l | l in ReadLens(len, rplan, n, want, forever).lens :: l >= 9
    ensures var lens := ReadLens(len, rplan, n, want, forever).lens;
            && Sum(lens) <= len
            && (WholeButLast(lens)
                <==> forall s: seq<Byte> | |s| == len ::
                       Transfer(s, rplan, wplan, n, want, forever, Expand).written == Widen(s[..Sum(lens)]))
  {
    var lens := ReadLens(len, rplan, n, want, forever).lens;
    LensFit(len, rplan, n, want, forever);
    if WholeButLast(lens) {
      forall s: seq<Byte> | |s| == len
        ensures Transfer(s, rplan, wplan, n, want, forever, Expand).written == Widen(s[..Sum(lens)])
      {
        TransferSucceeds(s, rplan, wplan, n, want, forever, Expand);
        StreamedPrefix(s, lens, Expand);
        WholeReads(s[..Sum(lens)], lens);
      }
    } else {
      SplitReads(lens);
      var w := SplitWitness(lens);
      var s := w + Zeros(len - Sum(lens));
      assert s[..Sum(lens)] == w;
      TransferSucceeds(s, rplan, wplan, n, want, forever, Expand);
      StreamedPrefix(s, lens, Expand);
    }
  }
}
