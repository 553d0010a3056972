/** makewav and strip_wav undo each other, when they fail, and when a recording completes. */
module SoundKitTheorems {
  import opened Bytes
  import opened Streams
  import opened StreamRuns
  import opened StreamTheorems
  import opened WavHeader
  import opened SoundKit

  // ---------- copying ----------

  /** A plain loop never aborts, and what it has written is a front of the input. */
  lemma PlainTransfer(s: seq<Byte>, rplan: seq<int>, wplan: seq<int>, n: nat, want: int)
    ensures var t := Transfer(s, rplan, wplan, n, want, false, Plain);
            var k := Sum(ReadLens(|s|, rplan, n, want, false).lens);
            && k <= |s| && t.written <= s[..k]
            && |t.written| == Out(wplan, ReadLens(|s|, rplan, n, want, false).lens, Plain)
            && (t.end == Finished || t.end == ReadFailed || t.end == WriteFailed)
            && (t.end != WriteFailed ==> t.written == s[..k] && t.used == k)
  {
    var lens := ReadLens(|s|, rplan, n, want, false).lens;
    TransferExact(s, rplan, wplan, n, want, false, Plain);
    SoundMeaning(lens, Plain);
    StreamedPlain(s, lens);
  }

  /** No error or empty read: the goal is reached. */
  lemma MovingReachesGoal(avail: nat, rplan: seq<int>, n: nat, want: int)
    requires Moving(rplan) && n > 0
    ensures Sum(ReadLens(avail, rplan, n, want, false).lens) >= Min(want, avail)
  {
    ReadsReachGoal(avail, rplan, n, want, false);
    assert forall k | 0 <= k < |rplan| :: rplan[k] in rplan;
  }

  // ---------- makewav ----------

  lemma HeaderFirst(header: seq<Byte>, rplan: seq<int>, wplan: seq<int>, after: Run)
    requires after.end != Refused
    requires var w := WriteRun(wplan, |header|); FailsExactly(after.end, rplan, after.rplan, w.rest, after.wplan)
    ensures var r := WithHeader(header, rplan, WriteRun(wplan, |header|), after);
            && FailsExactly(r.end, rplan, r.rplan, wplan, r.wplan)
            && ((r.end == after.end && r.used == after.used && r.written == header + after.written)
                || r.end == WriteFailed)
  {
    var n := |header|;
    var w := WriteRun(wplan, n);
    WriteFailsExactly(wplan, n, n);
    WriteLeaves(wplan, n);
    ErrorNow(rplan);
    if w.ok {
      ErrorsTrans(after.end, rplan, rplan, after.rplan, wplan, w.rest, after.wplan);
    }
  }

  /** makewav returns -1 exactly when one of its reads or writes failed; otherwise the
      file is the header and the bytes read. Whatever fails, the file is as much of that as the
      writes got out. */
  lemma MakeFailsExactly(raw: seq<Byte>, rplan: seq<int>, wplan: seq<int>, fileLen: Int32, header: seq<Byte>)
    ensures var r := MakeRun(raw, rplan, wplan, fileLen, header);
            && (r.end != Finished <==> ErrorMet(rplan, r.rplan) || ErrorMet(wplan, r.wplan))
            && (r.end == Finished ==>
                  && r.used == Sum(ReadLens(|raw|, rplan, 4096, fileLen, false).lens) <= |raw|
                  && r.written == header + raw[..r.used])
            && r.written <= header + raw
            && var w := WriteRun(wplan, |header|);
               |r.written| == w.done + if w.ok then Out(w.rest, ReadLens(|raw|, rplan, 4096, fileLen, false).lens, Plain)
                                       else 0
  {
    var w := WriteRun(wplan, |header|);
    var t := Transfer(raw, rplan, w.rest, FILE_BLOCK_LEN, fileLen, false, Plain);
    hide *;
    TransferErrors(raw, rplan, w.rest, FILE_BLOCK_LEN, fileLen, false, Plain);
    PlainTransfer(raw, rplan, w.rest, FILE_BLOCK_LEN, fileLen);
    HeaderFirst(header, rplan, wplan, t);
    HeaderWritten(raw, header, rplan, w, t, Sum(ReadLens(|raw|, rplan, FILE_BLOCK_LEN, fileLen, false).lens));
    FailureMet(WithHeader(header, rplan, w, t), rplan, wplan);
    MakeRunIs(raw, rplan, wplan, fileLen, header);
  }

  lemma MakeRunIs(raw: seq<Byte>, rplan: seq<int>, wplan: seq<int>, fileLen: Int32, header: seq<Byte>)
    ensures var w := WriteRun(wplan, |header|);
            MakeRun(raw, rplan, wplan, fileLen, header)
            == WithHeader(header, rplan, w, Transfer(raw, rplan, w.rest, 4096, fileLen, false, Plain))
  {
  }

  lemma FailureMet(r: Run, rplan: seq<int>, wplan: seq<int>)
    requires FailsExactly(r.end, rplan, r.rplan, wplan, r.wplan)
    requires r.end == Finished || r.end == ReadFailed || r.end == WriteFailed
    ensures r.end != Finished <==> ErrorMet(rplan, r.rplan) || ErrorMet(wplan, r.wplan)
  {
  }

  lemma HeaderWritten(raw: seq<Byte>, header: seq<Byte>, rplan: seq<int>, w: Wrote, t: Run, k: nat)
    requires w.done <= |header| && (w.ok <==> w.done == |header|) && k <= |raw| && t.written <= raw[..k]
    requires t.end != WriteFailed ==> t.written == raw[..k] && t.used == k
    requires t.end == Finished || t.end == ReadFailed || t.end == WriteFailed
    ensures var r := WithHeader(header, rplan, w, t);
            && r.written <= header + raw && |r.written| == w.done + (if w.ok then |t.written| else 0)
            && (r.end == Finished ==> r.used == k && r.written == header + raw[..k])
            && (r.end == Finished || r.end == ReadFailed || r.end == WriteFailed)
  {
    if w.ok {
      assert t.written == raw[..|t.written|];
      PrefixOfSum(header, t.written, raw);
    }
  }

  /** Without errors it writes the header and the whole file. */
  lemma MakeSucceeds(raw: seq<Byte>, rplan: seq<int>, wplan: seq<int>, header: seq<Byte>)
    requires |raw| < 0x8000_0000 && Moving(rplan) && NoErrors(wplan)
    ensures var r := MakeRun(raw, rplan, wplan, |raw|, header);
            r.end == Finished && r.written == header + raw
  {
    hide Transfer, WriteRun, ReadLens;
    var w := WriteRun(wplan, |header|);
    var t := Transfer(raw, rplan, w.rest, FILE_BLOCK_LEN, |raw|, false, Plain);
    TransferErrors(raw, rplan, w.rest, FILE_BLOCK_LEN, |raw|, false, Plain);
    PlainTransfer(raw, rplan, w.rest, FILE_BLOCK_LEN, |raw|);
    MovingReachesGoal(|raw|, rplan, FILE_BLOCK_LEN, |raw|);
    MakeFailsExactly(raw, rplan, wplan, |raw|, header);
    HeaderFirst(header, rplan, wplan, t);
    var r := MakeRun(raw, rplan, wplan, |raw|, header);
    NoErrorMet(rplan, r.rplan);
    NoErrorMet(wplan, r.wplan);
    assert raw[..|raw|] == raw;
  }

  // ---------- strip_wav ----------

  /** strip_wav returns -1 exactly when the first read or the parser refuses the file or a
      write fails. */
  lemma StripFailsExactly(file: seq<Byte>, rplan: seq<int>, wplan: seq<int>)
    ensures var r := StripRun(file, rplan, wplan);
            var accepted := Count(rplan, 256, |file|) == 256
                            && Parse(file[..256]).Header? && Parse(file[..256]).dataLen != 0;
            && (Accepts(file, rplan) <==> accepted)
            && (r.end == Refused <==> !accepted)
            && (r.end == WriteFailed <==> ErrorMet(wplan, r.wplan))
            && StripReturn(r.end) == if !accepted || ErrorMet(wplan, r.wplan) then -1 else 0
  {
    hide Transfer, Parse;
    ErrorNow(wplan);
    if Accepts(file, rplan) {
      var head := Parse(file[..256]);
      HeadInside(file[..256]);
      TransferErrors(file[head.headLen..], Next(rplan), wplan, FILE_BLOCK_LEN, head.dataLen, false, Plain);
    }
  }

  /** A failed read does not show: once the header is accepted and no write fails, 0 is
      returned and the copy is what the loop reads, less than a block past the data length. It
      holds all the data there is if and only if neither an error nor an empty read is
      scheduled before its end. */
  lemma StripCopies(file: seq<Byte>, rplan: seq<int>, wplan: seq<int>)
    requires Accepts(file, rplan)
    ensures var r := StripRun(file, rplan, wplan);
            var head := Parse(file[..256]);
            head.headLen <= |file| &&
            var data := file[head.headLen..];
            && r.written <= data
            && |r.written| == Out(wplan, ReadLens(|data|, Next(rplan), 4096, head.dataLen, false).lens, Plain)
            && (r.end != WriteFailed ==>
                 && StripReturn(r.end) == 0
                 && |r.written| == Sum(ReadLens(|data|, Next(rplan), 4096, head.dataLen, false).lens)
                 && (head.dataLen < 0 ==> r.written == [])
                 && (head.dataLen > 0 ==> |r.written| < head.dataLen + 4096)
                 && (|r.written| >= Min(head.dataLen, |data|)
                     <==> !StopsBefore(Next(rplan), 1, 4096, Min(head.dataLen, |data|))))
  {
    hide Transfer, Parse, ReadLens, StopsBefore;
    var head := Parse(file[..256]);
    HeadInside(file[..256]);
    var data := file[head.headLen..];
    PlainTransfer(data, Next(rplan), wplan, FILE_BLOCK_LEN, head.dataLen);
    ReadsReachGoal(|data|, Next(rplan), FILE_BLOCK_LEN, head.dataLen, false);
    ReadsStopAtLimit(|data|, Next(rplan), FILE_BLOCK_LEN, head.dataLen);
    var t := Transfer(data, Next(rplan), wplan, FILE_BLOCK_LEN, head.dataLen, false, Plain);
    assert [] + t.written == t.written;
  }

  /** The first read is not cut short. */
  predicate FullFirstRead(rplan: seq<int>) { rplan == [] || rplan[0] >= 256 }

  /** The file makewav makes of at least 212 bytes is accepted; of fewer it is refused,
      whatever the schedule. */
  lemma MadeFileAccepted(raw: seq<Byte>, channels: Word32, speed: Word32, bits: Word32, rplan: seq<int>)
    requires |raw| < 0x8000_0000
    ensures var file := WrittenHeader(|raw|, channels, speed, bits) + raw;
            && (Accepts(file, rplan) <==> |raw| >= 212 && FullFirstRead(rplan))
            && (|file| >= 256 ==>
                  Parse(file[..256])
                  == Header(44, Low16(channels), speed, Low16(bits), |raw|))
            && file[44..] == raw
  {
    hide Parse, WrittenHeader;
    var head := WrittenHeader(|raw|, channels, speed, bits);
    var file := head + raw;
    if |raw| >= 212 {
      var rest := raw[..212];
      assert file[..256] == head + rest;
      WrittenHeaderParses(|raw|, channels, speed, bits, rest);
    }
  }

  /** strip_wav after makewav, on the file that makewav writes: the copy is the raw file if and
      only if that has at least 212 bytes, the first read is full and no error or empty read
      is scheduled before its end. */
  lemma StripMade(raw: seq<Byte>, channels: Word32, speed: Word32, bits: Word32, rplan: seq<int>, wplan: seq<int>)
    requires |raw| < 0x8000_0000 && NoErrors(wplan)
    ensures var r := StripRun(WrittenHeader(|raw|, channels, speed, bits) + raw, rplan, wplan);
            var long := |raw| >= 212;
            && StripReturn(r.end) == (if long && FullFirstRead(rplan) then 0 else -1)
            && (StripReturn(r.end) == -1 ==> r.end == Refused && r.written == [])
            && (StripReturn(r.end) == 0 ==>
                  (r.written == raw <==> !StopsBefore(Next(rplan), 1, 4096, |raw|)))
  {
    hide Transfer, Parse, StopsBefore, WrittenHeader;
    var file := WrittenHeader(|raw|, channels, speed, bits) + raw;
    MadeFileAccepted(raw, channels, speed, bits, rplan);
    var r := StripRun(file, rplan, wplan);
    StripFailsExactly(file, rplan, wplan);
    NoErrorMet(wplan, r.wplan);
    if Accepts(file, rplan) {
      StripCopies(file, rplan, wplan);
      assert |r.written| == |raw| ==> r.written == raw[..|raw|] == raw;
    }
  }

  /** The round trip, for every raw file in int range and all schedules without errors. */
  lemma MakeStripRoundTrip(raw: seq<Byte>, channels: Word32, speed: Word32, bits: Word32,
                           rawReads: seq<int>, wavWrites: seq<int>, wavReads: seq<int>, rawWrites: seq<int>)
    requires |raw| < 0x8000_0000
    requires Moving(rawReads) && NoErrors(wavWrites) && NoErrors(rawWrites)
    requires Moving(wavReads) && FullFirstRead(wavReads)
    ensures var made := MakeRun(raw, rawReads, wavWrites, |raw|, WrittenHeader(|raw|, channels, speed, bits));
            var strip := StripRun(made.written, wavReads, rawWrites);
            && made.end == Finished
            && if |raw| >= 212 then StripReturn(strip.end) == 0 && strip.written == raw
               else StripReturn(strip.end) == -1 && strip.written == []
  {
    hide MakeRun, StripRun, WrittenHeader, StopsBefore;
    MakeSucceeds(raw, rawReads, wavWrites, WrittenHeader(|raw|, channels, speed, bits));
    StripMade(raw, channels, speed, bits, wavReads, rawWrites);
    MovingNeverStops(Next(wavReads), wavReads, FILE_BLOCK_LEN, |raw|);
  }

  lemma MovingNeverStops(rest: seq<int>, plan: seq<int>, n: nat, target: int)
    requires Moving(plan) && rest == Next(plan)
    ensures !StopsBefore(rest, 1, n, target)
  {
    assert forall k | 0 <= k < |rest| :: rest[k] == plan[k + 1] && plan[k + 1] in plan;
  }

  /** The two programs one after the other. */
  method MakeThenStrip(raw: InFile, wav: OutFile, copy: OutFile, wavReads: seq<int>,
                       channels: Word32, speed: Word32, bits: Word32)
    returns (made: int, stripped: int)
    requires raw.pos == 0 && |raw.data| < 0x8000_0000 && wav.written == [] && copy.written == [] && wav != copy
    requires Moving(raw.plan) && NoErrors(wav.plan) && NoErrors(copy.plan)
    requires Moving(wavReads) && FullFirstRead(wavReads)
    modifies raw, wav, copy
    ensures made == 0 && wav.written == WrittenHeader(|raw.data|, channels, speed, bits) + raw.data
    ensures if |raw.data| >= 212 then stripped == 0 && copy.written == raw.data
            else stripped == -1 && copy.written == []
  {
    hide MakeRun, StripRun, WrittenHeader, Parse;
    ghost var header := WrittenHeader(|raw.data|, channels, speed, bits);
    assert raw.Rest() == raw.data;
    MakeSucceeds(raw.data, raw.plan, wav.plan, header);
    MakeStripRoundTrip(raw.data, channels, speed, bits, raw.plan, wav.plan, wavReads, copy.plan);
    MadeFileAccepted(raw.data, channels, speed, bits, wavReads);
    made := MakeWav(wav, raw, |raw.data|, channels, speed, bits);
    assert wav.written == header + raw.data;
    var file := new InFile(wav.written, wavReads);
    stripped := StripWav(copy, file);
  }

  /** A read error right after the header: 0 is returned and nothing has been copied. */
  lemma ReadErrorHidden(raw: seq<Byte>, channels: Word32, speed: Word32, bits: Word32)
    requires 212 <= |raw| < 0x8000_0000
    ensures var r := StripRun(WrittenHeader(|raw|, channels, speed, bits) + raw, [256, -1], []);
            StripReturn(r.end) == 0 && r.end == ReadFailed && r.written == []
  {
    hide Parse, WrittenHeader;
    var rplan := [256, -1];
    assert Next(rplan) == [-1];
    MadeFileAccepted(raw, channels, speed, bits, rplan);
  }

  // ---------- record ----------

  lemma RecordUnfold(s: seq<Byte>, rplan: seq<int>, wplan: seq<int>, n: nat, left: int, conv: Conversion)
    ensures RecordRun(s, rplan, wplan, n, left, conv)
         == if left <= 0 then Run(Finished, [], 0, rplan, wplan)
            else if rplan == [] then Run(Unfinished, [], 0, rplan, wplan)
            else
              match TakeTurn(s, rplan, wplan, Min(n, left), conv)
              case Stop(end, c, w, rp, wp) =>
                if end == Finished then RecordRun(s, rp, wp, n, left, conv) else Run(end, w, c, rp, wp)
              case Go(c, w, rp, wp) => Past(w, c, RecordRun(s[c..], rp, wp, n, left - |w|, conv))
    ensures rplan == [] ==> Capacity(rplan, n) == 0
  {
    hide TakeTurn;
  }

  /** record fails exactly when one of its calls is an error; it never reads past its
      schedule. */
  lemma {:induction false} RecordFailsExactly(s: seq<Byte>, rplan: seq<int>, wplan: seq<int>, n: nat, left: int,
                                              conv: Conversion)
    requires conv != Expand
    ensures var r := RecordRun(s, rplan, wplan, n, left, conv);
            && FailsExactly(r.end, rplan, r.rplan, wplan, r.wplan)
            && (r.end == Finished || r.end == Unfinished || r.end == ReadFailed || r.end == WriteFailed)
            && (r.end == Unfinished ==> r.rplan == [])
    decreases |rplan|
  {
    hide TakeTurn, FailsExactly, RecordRun;
    RecordUnfold(s, rplan, wplan, n, left, conv);
    if left <= 0 || rplan == [] {
      NoCalls(rplan, wplan);
      SameCalls(if left <= 0 then Finished else Unfinished, Finished, rplan, wplan, rplan, wplan);
    } else {
      TurnErrors(s, rplan, wplan, Min(n, left), conv);
      TurnEnds(s, rplan, wplan, Min(n, left), conv);
      var t := TakeTurn(s, rplan, wplan, Min(n, left), conv);
      if t.Go? || t.end == Finished {
        var more := left - if t.Go? then |t.written| else 0;
        var u := if t.Go? then s[t.chunk..] else s;
        RecordFailsExactly(u, t.rplan, t.wplan, n, more, conv);
        var r := RecordRun(u, t.rplan, t.wplan, n, more, conv);
        ErrorsTrans(r.end, rplan, t.rplan, r.rplan, wplan, t.wplan, r.wplan);
      }
    }
  }

  lemma SameCalls(a: End, b: End, rplan: seq<int>, wplan: seq<int>, rp: seq<int>, wp: seq<int>)
    requires FailsExactly(b, rplan, rp, wplan, wp)
    requires a != ReadFailed && b != ReadFailed && a != WriteFailed && b != WriteFailed
    ensures FailsExactly(a, rplan, rp, wplan, wp)
  {
  }

  lemma TurnEnds(s: seq<Byte>, rplan: seq<int>, wplan: seq<int>, n: nat, conv: Conversion)
    requires conv != Expand && rplan != []
    ensures var t := TakeTurn(s, rplan, wplan, n, conv);
            && |t.rplan| < |rplan|
            && (t.Stop? ==> t.end == Finished || t.end == ReadFailed || t.end == WriteFailed)
            && (t.Stop? && t.end == Finished <==> Count(rplan, n, |s|) == 0)
            && (t.Go? ==> t.chunk == Count(rplan, n, |s|) && t.written == Render(s[..t.chunk], conv)
                          && |t.written| == Rendered(t.chunk, conv))
  {
    var c := Count(rplan, n, |s|);
    if c > 0 {
      DeliverFinished(s[..c], wplan, conv);
      RenderLength(s[..c], conv);
    }
  }

  /** What is written never exceeds the recording; a finished one has the exact length. */
  lemma {:induction false} RecordedLength(s: seq<Byte>, rplan: seq<int>, wplan: seq<int>, n: nat, left: int,
                                          conv: Conversion)
    requires conv != Expand
    ensures var r := RecordRun(s, rplan, wplan, n, left, conv);
            && (r.end == Finished ==> |r.written| == if left <= 0 then 0 else left)
            && (r.end == Unfinished ==> |r.written| < left)
    // a 24-bit WAV recording never completes: in words of 4 bytes it cannot read the last
    // bytes, as it asks for no more bytes than are missing
            && (conv == Pack && left > 0 ==> r.end != Finished)
            && (conv == Pack && r.end == Unfinished ==> |r.written| % 3 == 0)
    decreases |rplan|
  {
    hide TakeTurn, RecordRun;
    RecordUnfold(s, rplan, wplan, n, left, conv);
    if left > 0 && rplan != [] {
      TurnEnds(s, rplan, wplan, Min(n, left), conv);
      var t := TakeTurn(s, rplan, wplan, Min(n, left), conv);
      if t.Go? {
        RecordedLength(s[t.chunk..], t.rplan, t.wplan, n, left - |t.written|, conv);
      } else if t.end == Finished {
        RecordedLength(s, t.rplan, t.wplan, n, left, conv);
      }
    }
  }

  /** Without errors a plain recording is the front of the device's stream, as long as the
      recording, the offered reads and the stream allow; so it completes if and only if
      both offer enough. */
  lemma {:induction false} RecordExact(s: seq<Byte>, rplan: seq<int>, wplan: seq<int>, n: nat, left: nat)
    requires NoErrors(rplan) && NoErrors(wplan)
    ensures var r := RecordRun(s, rplan, wplan, n, left, Plain);
            var k := Min(left, Min(Capacity(rplan, n), |s|));
            && r.written == s[..k] && r.used == k
            && (r.end == Finished <==> left <= Capacity(rplan, n) && left <= |s|)
            && (r.end == Finished || r.end == Unfinished)
    decreases |rplan|
  {
    hide TakeTurn, FailsExactly, NoErrors, Capacity, RecordRun;
    RecordUnfold(s, rplan, wplan, n, left, Plain);
    if left > 0 && rplan != [] {
      var c := Count(rplan, Min(n, left), |s|);
      FirstOffer(rplan, n, left, |s|);
      TurnEnds(s, rplan, wplan, Min(n, left), Plain);
      CleanTurn(s, rplan, wplan, Min(n, left));
      var t := TakeTurn(s, rplan, wplan, Min(n, left), Plain);
      if t.Go? {
        RecordExact(s[c..], t.rplan, t.wplan, n, left - c);
        FrontGrows(s, c, Min(left - c, Min(Capacity(t.rplan, n), |s| - c)));
      } else {
        RecordExact(s, t.rplan, t.wplan, n, left);
      }
    }
  }

  /** A call that does not fail moves what is offered, at most what is left. */
  lemma FirstOffer(rplan: seq<int>, n: nat, left: nat, avail: nat)
    requires NoErrors(rplan) && rplan != []
    ensures var c := Count(rplan, Min(n, left), avail);
            && c >= 0
            && Min(left, Min(Capacity(rplan, n), avail))
               == c + Min(left - c, Min(Capacity(Next(rplan), n), avail - c))
            && (left <= Capacity(rplan, n) && left <= avail
                <==> left - c <= Capacity(Next(rplan), n) && left - c <= avail - c)
  {
    assert rplan[0] in rplan;
  }

  lemma FrontGrows(s: seq<Byte>, c: nat, k: nat)
    requires c + k <= |s|
    ensures s[..c] + s[c..][..k] == s[..c + k]
  {
  }

  /** Whatever fails, a plain recording is the front of what was read, all of it unless a write
      failed. */
  lemma {:induction false} RecordFront(s: seq<Byte>, rplan: seq<int>, wplan: seq<int>, n: nat, left: int)
    ensures var r := RecordRun(s, rplan, wplan, n, left, Plain);
            && r.written <= s[..r.used]
            && (r.end != WriteFailed ==> r.written == s[..r.used])
    decreases |rplan|
  {
    hide TakeTurn, RecordRun;
    RecordUnfold(s, rplan, wplan, n, left, Plain);
    if left > 0 && rplan != [] {
      var c := Count(rplan, Min(n, left), |s|);
      TurnEnds(s, rplan, wplan, Min(n, left), Plain);
      PlainTurn(s, rplan, wplan, Min(n, left));
      var t := TakeTurn(s, rplan, wplan, Min(n, left), Plain);
      if t.Go? {
        RecordFront(s[c..], t.rplan, t.wplan, n, left - c);
        FrontGrows(s, c, RecordRun(s[c..], t.rplan, t.wplan, n, left - c, Plain).used);
      } else if t.end == Finished {
        RecordFront(s, t.rplan, t.wplan, n, left);
      }
    }
  }

  lemma PlainTurn(s: seq<Byte>, rplan: seq<int>, wplan: seq<int>, n: nat)
    ensures var t := TakeTurn(s, rplan, wplan, n, Plain);
            t.written <= s[..t.chunk] && (t.Stop? && t.end != WriteFailed ==> t.written == s[..t.chunk])
  {
  }

  lemma CleanTurn(s: seq<Byte>, rplan: seq<int>, wplan: seq<int>, n: nat)
    requires NoErrors(rplan) && NoErrors(wplan) && rplan != []
    ensures var t := TakeTurn(s, rplan, wplan, n, Plain);
            && (t.Go? || t.end == Finished) && t.rplan == Next(rplan) && NoErrors(t.rplan) && NoErrors(t.wplan)
  {
    var t := TakeTurn(s, rplan, wplan, n, Plain);
    TurnErrors(s, rplan, wplan, n, Plain);
    TurnEnds(s, rplan, wplan, n, Plain);
    NoErrorMet(rplan, t.rplan);
    NoErrorMet(wplan, t.wplan);
  }

  /** If a WAV recording completes, its header parses to the number of bytes after it; a
      24-bit one never does, and as long as nothing fails its header claims more bytes than
      follow. */
  lemma RecordedWav(s: seq<Byte>, rplan: seq<int>, wplan: seq<int>, n: nat, recordLen: Int32,
                    bits: Word32, channels: Word32, speed: Word32)
    requires recordLen > 0
    ensures var r := RecordWavRun(s, rplan, wplan, n, recordLen, WrittenHeader(recordLen, channels, speed, bits),
                                  if bits == 24 then Pack else Plain);
            && (r.end == Finished || r.end == Unfinished ==>
                 && |r.written| >= 44
                 && Parse(r.written) == Header(44, Low16(channels), speed, Low16(bits), recordLen)
                 && (r.end == Finished <==> |r.written| - 44 == recordLen)
                 && (r.end == Unfinished <==> |r.written| - 44 < recordLen))
            && (bits == 24 ==> r.end != Finished)
            && (r.end == ReadFailed || r.end == WriteFailed
                <==> ErrorMet(rplan, r.rplan) || ErrorMet(wplan, r.wplan))
  {
    hide RecordRun, Parse, WrittenHeader;
    var header := WrittenHeader(recordLen, channels, speed, bits);
    var conv := if bits == 24 then Pack else Plain;
    var w := WriteRun(wplan, |header|);
    var t := RecordRun(s, rplan, w.rest, n, recordLen, conv);
    RecordFailsExactly(s, rplan, w.rest, n, recordLen, conv);
    RecordedLength(s, rplan, w.rest, n, recordLen, conv);
    HeaderFirst(header, rplan, wplan, t);
    WrittenHeaderParses(recordLen, channels, speed, bits, t.written);
  }
}
