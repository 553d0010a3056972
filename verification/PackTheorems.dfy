/** What a 24-bit WAV recording holds. */
module PackTheorems {
  import opened Bytes
  import opened Streams
  import opened StreamRuns
  import opened SoundKit
  import opened SoundKitTheorems
  import opened StreamTheorems
  import opened Wav
  import opened WavHeader

  /** The lengths of the non-empty reads of record in 24-bit mode whose writes do not fail:
      at most a buffer and at most what is left of the recording, which three bytes of every
      four read make. */
  function PackReads(avail: nat, rplan: seq<int>, n: nat, left: int): seq<nat>
    decreases |rplan|
  {
    if left <= 0 || rplan == [] then []
    else
      var c := Count(rplan, Min(n, left), avail);
      if c < 0 then []
      else if c == 0 then PackReads(avail, rplan[1..], n, left)
      else [c] + PackReads(avail - c, rplan[1..], n, left - 3 * (c / 4))
  }

  /** The three low bytes of every whole word of each read. */
  function Packed(s: seq<Byte>, lens: seq<nat>): seq<Byte>
    requires Sum(lens) <= |s|
    decreases |lens|
  {
    if lens == [] then [] else Narrow(s[..lens[0]]) + Packed(s[lens[0]..], lens[1..])
  }

  lemma PackedCons(s: seq<Byte>, c: nat, lens: seq<nat>)
    requires c + Sum(lens) <= |s|
    ensures Sum([c] + lens) == c + Sum(lens)
    ensures Packed(s, [c] + lens) == Narrow(s[..c]) + Packed(s[c..], lens)
  {
    SumCons(c, lens);
    assert ([c] + lens)[1..] == lens;
  }

  /** The recording is, read by read, the low three bytes of the words the device delivers;
      if a write fails, the front of that. */
  lemma {:induction false} PackExact(s: seq<Byte>, rplan: seq<int>, wplan: seq<int>, n: nat, left: int)
    ensures var r, lens := RecordRun(s, rplan, wplan, n, left, Pack), PackReads(|s|, rplan, n, left);
            && Sum(lens) <= |s| && r.written <= Packed(s, lens)
            && (r.end != WriteFailed ==> r.used == Sum(lens) && r.written == Packed(s, lens))
    decreases |rplan|
  {
    hide *;
    RecordUnfold(s, rplan, wplan, n, left, Pack);
    PackReadsUnfold(|s|, rplan, n, left);
    if left <= 0 || rplan == [] {
      NothingPacked(s);
    } else {
      var c := Count(rplan, Min(n, left), |s|);
      PackTurn(s, rplan, wplan, Min(n, left));
      var t := TakeTurn(s, rplan, wplan, Min(n, left), Pack);
      if c < 0 {
        NothingPacked(s);
      } else if c == 0 {
        PackExact(s, t.rplan, t.wplan, n, left);
      } else {
        var more := left - 3 * (c / 4);
        var lens := PackReads(|s| - c, rplan[1..], n, more);
        PackFits(|s| - c, rplan[1..], n, more);
        PackedCons(s, c, lens);
        if t.Go? {
          PackExact(s[c..], t.rplan, t.wplan, n, more);
          var r := RecordRun(s[c..], t.rplan, t.wplan, n, more, Pack);
          PrefixOfSum(t.written, r.written, Packed(s[c..], lens));
          PastIs(t.written, c, r);
        } else {
          assert t.written <= Narrow(s[..c]) + Packed(s[c..], lens);
        }
      }
    }
  }

  lemma {:induction false} PackFits(avail: nat, rplan: seq<int>, n: nat, left: int)
    ensures Sum(PackReads(avail, rplan, n, left)) <= avail
    decreases |rplan|
  {
    if left > 0 && rplan != [] {
      var c := Count(rplan, Min(n, left), avail);
      if c == 0 {
        PackFits(avail, rplan[1..], n, left);
      } else if c > 0 {
        PackFits(avail - c, rplan[1..], n, left - 3 * (c / 4));
        SumCons(c, PackReads(avail - c, rplan[1..], n, left - 3 * (c / 4)));
      }
    }
  }

  /** Without errors no write fails, and as the recording never completes it ends with the
      schedule. */
  lemma PackSucceeds(s: seq<Byte>, rplan: seq<int>, wplan: seq<int>, n: nat, left: int)
    requires NoErrors(rplan) && NoErrors(wplan)
    ensures RecordRun(s, rplan, wplan, n, left, Pack).end == if left <= 0 then Finished else Unfinished
  {
    var r := RecordRun(s, rplan, wplan, n, left, Pack);
    RecordFailsExactly(s, rplan, wplan, n, left, Pack);
    RecordedLength(s, rplan, wplan, n, left, Pack);
    NoErrorMet(rplan, r.rplan);
    NoErrorMet(wplan, r.wplan);
    RecordUnfold(s, rplan, wplan, n, left, Pack);
  }

  lemma PastIs(front: seq<Byte>, used: nat, r: Run)
    ensures Past(front, used, r) == Run(r.end, front + r.written, used + r.used, r.rplan, r.wplan)
  {
  }

  lemma PackReadsUnfold(avail: nat, rplan: seq<int>, n: nat, left: int)
    ensures PackReads(avail, rplan, n, left)
         == if left <= 0 || rplan == [] then []
            else
              var c := Count(rplan, Min(n, left), avail);
              if c < 0 then []
              else if c == 0 then PackReads(avail, rplan[1..], n, left)
              else [c] + PackReads(avail - c, rplan[1..], n, left - 3 * (c / 4))
    ensures left > 0 ==> 0 <= Min(n, left) <= left
  {
  }

  lemma NothingPacked(s: seq<Byte>)
    ensures Packed(s, []) == [] && Sum([]) == 0
  {
  }

  lemma PackTurn(s: seq<Byte>, rplan: seq<int>, wplan: seq<int>, n: nat)
    requires rplan != []
    ensures var c, t := Count(rplan, n, |s|), TakeTurn(s, rplan, wplan, n, Pack);
            && t.rplan == rplan[1..]
            && (c < 0 ==> t.Stop? && t.end == ReadFailed && t.written == [] && t.chunk == 0)
            && (c == 0 ==> t.Stop? && t.end == Finished)
            && (c > 0 && t.Go? ==> t.chunk == c && t.written == Narrow(s[..c]) && |t.written| == 3 * (c / 4))
            && (c > 0 && t.Stop? ==> t.end == WriteFailed && t.written <= Narrow(s[..c]))
  {
    var c := Count(rplan, n, |s|);
    TurnEnds(s, rplan, wplan, n, Pack);
    if c > 0 {
      NarrowLength(s[..c]);
    }
  }

  // ---------- whole words ----------

  /** Only whole words are read before the last read that gives a sample. */
  predicate WholeWords(lens: seq<nat>) {
    forall i, j | 0 <= i < j < |lens| && lens[j] >= 4 :: lens[i] % 4 == 0
  }

  function Words(lens: seq<nat>): nat {
    if lens == [] then 0 else lens[0] / 4 + Words(lens[1..])
  }

  lemma {:induction false} WordsFit(lens: seq<nat>)
    ensures 4 * Words(lens) <= Sum(lens)
    ensures (forall i | 0 <= i < |lens| :: lens[i] < 4) ==> Words(lens) == 0
    ensures (exists i :: 0 <= i < |lens| && lens[i] >= 4) ==> Words(lens) > 0
    decreases |lens|
  {
    if lens != [] {
      WordsFit(lens[1..]);
      assert forall i | 0 < i < |lens| :: lens[i] == lens[1..][i - 1];
      assert forall i | 0 <= i < |lens| - 1 :: lens[1..][i] == lens[i + 1];
    }
  }

  lemma {:induction false} PackedLength(s: seq<Byte>, lens: seq<nat>)
    requires Sum(lens) <= |s|
    ensures |Packed(s, lens)| == 3 * Words(lens)
    decreases |lens|
  {
    if lens != [] {
      NarrowLength(s[..lens[0]]);
      PackedLength(s[lens[0]..], lens[1..]);
    }
  }

  /** Then the recording is the narrowing of the words read. */
  lemma {:induction false} WholeWordsPacked(s: seq<Byte>, lens: seq<nat>)
    requires Sum(lens) <= |s| && WholeWords(lens)
    ensures 4 * Words(lens) <= |s| && Packed(s, lens) == Narrow(s[..4 * Words(lens)])
    decreases |lens|
  {
    WordsFit(lens);
    if lens == [] {
      assert s[..0] == [];
    } else {
      var a, rest := lens[0], lens[1..];
      WordsFit(rest);
      var w := 4 * Words(rest);
      assert forall i | 0 <= i < |rest| :: rest[i] == lens[i + 1];
      assert WholeWords(rest);
      WholeWordsPacked(s[a..], rest);
      if Words(rest) == 0 {
        PackedLength(s[a..], rest);
        NarrowWhole(s[..a]);
        assert s[..a][..a / 4 * 4] == s[..4 * Words(lens)];
      } else {
        var j :| 0 <= j < |rest| && rest[j] >= 4;
        assert lens[j + 1] >= 4;
        assert a % 4 == 0;
        NarrowConcat(s[..a], s[a..][..w]);
        assert s[..a] + s[a..][..w] == s[..a + w];
      }
    }
  }

  /** Contents that show a split word: a single 1 where the first one split would start. */
  function WordWitness(lens: seq<nat>): (s: seq<Byte>)
    ensures |s| == Sum(lens)
    decreases |lens|
  {
    if lens == [] then []
    else if lens[0] % 4 == 0 then Zeros(lens[0]) + WordWitness(lens[1..])
    else Zeros(lens[0] / 4 * 4) + [1] + Zeros(lens[0] % 4 - 1 + Sum(lens[1..]))
  }

  lemma {:induction false} SplitWords(lens: seq<nat>)
    requires !WholeWords(lens)
    ensures 4 * Words(lens) <= Sum(lens)
    ensures Packed(WordWitness(lens), lens) != Narrow(WordWitness(lens)[..4 * Words(lens)])
    decreases |lens|
  {
    WordsFit(lens);
    var i, j :| 0 <= i < j < |lens| && lens[j] >= 4 && lens[i] % 4 != 0;
    var a, rest, s := lens[0], lens[1..], WordWitness(lens);
    assert lens == [a] + rest;
    WordsFit(rest);
    assert rest[j - 1] >= 4;
    hide Narrow, Packed;
    if a % 4 == 0 {
      assert rest[i - 1] % 4 != 0;
      SplitWords(rest);
      WholeThenSplit(a, rest, s, WordWitness(rest));
    } else {
      SplitWord(a, rest, s);
    }
  }

  lemma WholeThenSplit(a: nat, rest: seq<nat>, s: seq<Byte>, t: seq<Byte>)
    requires a % 4 == 0 && |t| == Sum(rest) && s == Zeros(a) + t && 4 * Words(rest) <= |t|
    requires Packed(t, rest) != Narrow(t[..4 * Words(rest)])
    ensures Sum([a] + rest) == |s| && Words([a] + rest) == a / 4 + Words(rest)
    ensures 4 * (a / 4 + Words(rest)) <= |s|
    ensures Packed(s, [a] + rest) != Narrow(s[..4 * (a / 4 + Words(rest))])
  {
    hide Narrow, Packed;
    var z, w := Zeros(a), 4 * Words(rest);
    PackedCons(s, a, rest);
    assert ([a] + rest)[1..] == rest;
    assert s[..a] == z && s[a..] == t && s[..a + w] == z + t[..w];
    NarrowConcat(z, t[..w]);
    SameFront(Narrow(z), Packed(t, rest), Narrow(t[..w]));
  }

  lemma SplitWord(a: nat, rest: seq<nat>, s: seq<Byte>)
    requires a % 4 != 0 && Words(rest) > 0
    requires s == Zeros(a / 4 * 4) + [1] + Zeros(a % 4 - 1 + Sum(rest))
    ensures Sum([a] + rest) == |s| && Words([a] + rest) == a / 4 + Words(rest)
    ensures 4 * (a / 4 + Words(rest)) <= |s|
    ensures Packed(s, [a] + rest) != Narrow(s[..4 * (a / 4 + Words(rest))])
  {
    hide Narrow, Packed, Words, Sum;
    WordsCons(a, rest);
    SumCons(a, rest);
    WordsFit(rest);
    var q := a / 4;
    var front := s[..4 * (q + Words(rest))];
    assert front[4 * q] == s[4 * q] == 1;
    SplitByteRecorded(a, rest, s);
    NarrowAt(front, q + Words(rest), q);
  }

  lemma WordsCons(a: nat, rest: seq<nat>)
    ensures Words([a] + rest) == a / 4 + Words(rest)
  {
    assert ([a] + rest)[1..] == rest;
  }

  /** The first byte recorded after a split word comes from the next read. */
  lemma SplitByteRecorded(a: nat, rest: seq<nat>, s: seq<Byte>)
    requires |s| == a + Sum(rest) && Words(rest) > 0 && forall k | a <= k < |s| :: s[k] == 0
    ensures Sum([a] + rest) == |s|
    ensures var p := Packed(s, [a] + rest); |p| == 3 * (a / 4 + Words(rest)) && p[3 * (a / 4)] == 0
  {
    hide Narrow, Packed;
    PackedCons(s, a, rest);
    NarrowLength(s[..a]);
    ZeroPacked(s[a..], rest);
    PackedLength(s[a..], rest);
    assert Packed(s, [a] + rest)[3 * (a / 4)] == Packed(s[a..], rest)[0];
  }

  lemma {:induction false} ZeroPacked(s: seq<Byte>, lens: seq<nat>)
    requires Sum(lens) <= |s| && forall k | 0 <= k < |s| :: s[k] == 0
    ensures forall k | 0 <= k < |Packed(s, lens)| :: Packed(s, lens)[k] == 0
    decreases |lens|
  {
    if lens != [] {
      ZeroNarrow(s[..lens[0]]);
      ZeroPacked(s[lens[0]..], lens[1..]);
    }
  }

  lemma {:induction false} ZeroNarrow(s: seq<Byte>)
    requires forall k | 0 <= k < |s| :: s[k] == 0
    ensures forall k | 0 <= k < |Narrow(s)| :: Narrow(s)[k] == 0
  {
    if |s| >= 4 {
      ZeroNarrow(s[4..]);
    }
  }

  /** A 24-bit recording made by error-free schedules: for given reads, byte 3k+i of it is byte
      4k+i of the device's stream (i below 3), for all contents, if and only if only whole
      words are read before the last read that gives a sample. */
  lemma PackedRecording(len: nat, rplan: seq<int>, wplan: seq<int>, n: nat, left: int)
    requires NoErrors(rplan) && NoErrors(wplan)
    ensures WholeWords(PackReads(len, rplan, n, left))
       <==> forall s: seq<Byte> | |s| == len ::
              ThreeOfFour(s, RecordRun(s, rplan, wplan, n, left, Pack).written)
  {
    hide RecordRun, PackReads;
    var lens := PackReads(len, rplan, n, left);
    WordsFit(lens);
    if WholeWords(lens) {
      forall s: seq<Byte> | |s| == len
        ensures ThreeOfFour(s, RecordRun(s, rplan, wplan, n, left, Pack).written)
      {
        PackSucceeds(s, rplan, wplan, n, left);
        PackExact(s, rplan, wplan, n, left);
        WholeWordsPacked(s, lens);
        IsThreeOfFour(s, Words(lens));
      }
    } else {
      SplitWords(lens);
      PackFits(len, rplan, n, left);
      var w := WordWitness(lens);
      var s := w + Zeros(len - Sum(lens));
      PackSucceeds(s, rplan, wplan, n, left);
      PackExact(s, rplan, wplan, n, left);
      PackedPrefix(s, lens);
      assert s[..Sum(lens)] == w && s[..4 * Words(lens)] == w[..4 * Words(lens)];
      PackedLength(s, lens);
      if ThreeOfFour(s, Packed(s, lens)) {
        OnlyThreeOfFour(s, Packed(s, lens), Words(lens));
      }
    }
  }

  predicate ThreeOfFour(s: seq<Byte>, w: seq<Byte>) {
    forall k | 0 <= k < |w| / 3 ::
      4 * k + 4 <= |s| && w[3 * k] == s[4 * k] && w[3 * k + 1] == s[4 * k + 1] && w[3 * k + 2] == s[4 * k + 2]
  }

  lemma IsThreeOfFour(s: seq<Byte>, n: nat)
    requires 4 * n <= |s|
    ensures ThreeOfFour(s, Narrow(s[..4 * n]))
  {
    hide Narrow;
    var f, w := s[..4 * n], Narrow(s[..4 * n]);
    NarrowLength(f);
    assert |w| / 3 == n;
    forall k | 0 <= k < |w| / 3
      ensures 4 * k + 4 <= |s| && w[3 * k] == s[4 * k] && w[3 * k + 1] == s[4 * k + 1] && w[3 * k + 2] == s[4 * k + 2]
    {
      NarrowAt(f, n, k);
    }
  }

  lemma OnlyThreeOfFour(s: seq<Byte>, w: seq<Byte>, n: nat)
    requires 4 * n <= |s| && |w| == 3 * n && ThreeOfFour(s, w)
    ensures w == Narrow(s[..4 * n])
  {
    forall k | 0 <= k < n
      ensures Narrowed(s[..4 * n], w, k)
    {
      assert k < |w| / 3;
    }
    IsNarrow(s[..4 * n], w, n);
  }

  lemma {:induction false} PackedPrefix(s: seq<Byte>, lens: seq<nat>)
    requires Sum(lens) <= |s|
    ensures Packed(s, lens) == Packed(s[..Sum(lens)], lens)
    decreases |lens|
  {
    if lens != [] {
      var a, rest, f := lens[0], lens[1..], s[..Sum(lens)];
      PackedPrefix(s[a..], rest);
      assert f[..a] == s[..a] && f[a..] == s[a..][..Sum(rest)];
    }
  }

  /** The same after the header that main writes first. */
  lemma PackedWav(s: seq<Byte>, rplan: seq<int>, wplan: seq<int>, n: nat, recordLen: Int32, header: seq<Byte>)
    requires NoErrors(rplan) && NoErrors(wplan)
    ensures var r := RecordWavRun(s, rplan, wplan, n, recordLen, header, Pack);
            var lens := PackReads(|s|, rplan, n, recordLen);
            Sum(lens) <= |s| && r.written == header + Packed(s, lens)
  {
    hide RecordRun, PackReads, Packed;
    var w := WriteRun(wplan, |header|);
    WriteFailsExactly(wplan, |header|, |header|);
    WriteLeaves(wplan, |header|);
    NoErrorMet(wplan, w.rest);
    PackSucceeds(s, rplan, w.rest, n, recordLen);
    PackExact(s, rplan, w.rest, n, recordLen);
  }
}
