/** What the stream loops of sndkit.c do, as functions of the input and of the schedules
    of reads and writes. */
module StreamRuns {
  import opened Bytes
  import opened Streams
  import opened Wav

  datatype Conversion = Plain | Expand | Pack

  /** Plain bytes, 24-bit samples widened for the device, or device words packed: whole
      samples only. */
  function Render(chunk: seq<Byte>, conv: Conversion): seq<Byte> {
    match conv
    case Plain => chunk
    case Expand => Widen(chunk)
    case Pack => Narrow(chunk)
  }

  function Rendered(c: nat, conv: Conversion): nat {
    match conv
    case Plain => c
    case Expand => 4 * (c / 3)
    case Pack => 3 * (c / 4)
  }

  lemma RenderLength(chunk: seq<Byte>, conv: Conversion)
    ensures |Render(chunk, conv)| == Rendered(|chunk|, conv)
  {
    WidenLength(chunk);
    NarrowLength(chunk);
  }

  /** The closing assertions of the widening fail on fewer than three samples. */
  predicate TooShort(c: nat, conv: Conversion) { conv == Expand && c / 3 < 3 }

  // ---------- one chunk, and the loop of play, makewav and strip_wav ----------

  datatype End = Finished | ReadFailed | WriteFailed | Aborted | Refused | Unfinished

  datatype Delivery = Delivery(end: End, written: seq<Byte>, rest: seq<int>)

  /** What becomes of one chunk. */
  function Deliver(chunk: seq<Byte>, wplan: seq<int>, conv: Conversion): (d: Delivery)
    ensures |d.rest| <= |wplan|
  {
    if TooShort(|chunk|, conv) then Delivery(Aborted, [], wplan)
    else
      var out := Render(chunk, conv);
      var w := WriteRun(wplan, |out|);
      Delivery(if w.ok then Finished else WriteFailed, out[..w.done], w.rest)
  }

  /** How a loop ended, what it wrote, how many bytes it read, and what is left of the
      schedules. */
  datatype Run = Run(end: End, written: seq<Byte>, used: nat, rplan: seq<int>, wplan: seq<int>)

  function Past(front: seq<Byte>, used: nat, r: Run): Run {
    r.(written := front + r.written, used := used + r.used)
  }

  /** A turn ends the loop or moves a chunk. */
  datatype Turn = Stop(end: End, chunk: nat, written: seq<Byte>, rplan: seq<int>, wplan: seq<int>)
                | Go(chunk: nat, written: seq<Byte>, rplan: seq<int>, wplan: seq<int>)

  /** Read up to n bytes, convert and write them. */
  function TakeTurn(s: seq<Byte>, rplan: seq<int>, wplan: seq<int>, n: nat, conv: Conversion): (t: Turn)
    ensures |t.rplan| <= |rplan| && |t.wplan| <= |wplan| && t.chunk <= |s|
    ensures t.Go? ==> 0 < t.chunk && (rplan != [] ==> |t.rplan| < |rplan|)
  {
    var c := Count(rplan, n, |s|);
    if c < 0 then Stop(ReadFailed, 0, [], Next(rplan), wplan)
    else if c == 0 then Stop(Finished, 0, [], Next(rplan), wplan)
    else
      var d := Deliver(s[..c], wplan, conv);
      if d.end != Finished then Stop(d.end, c, d.written, Next(rplan), d.rest)
      else Go(c, d.written, Next(rplan), d.rest)
  }

  /** Turns until want bytes are read (unless the loop goes on forever) or a turn ends
      the loop. */
  function Transfer(s: seq<Byte>, rplan: seq<int>, wplan: seq<int>, n: nat, want: int, forever: bool,
                    conv: Conversion): (r: Run)
    ensures |r.rplan| <= |rplan| && |r.wplan| <= |wplan| && r.used <= |s|
    decreases |rplan|, |s|
  {
    if !forever && want <= 0 then Run(Finished, [], 0, rplan, wplan)
    else
      match TakeTurn(s, rplan, wplan, n, conv)
      case Stop(end, c, w, rp, wp) => Run(end, w, c, rp, wp)
      case Go(c, w, rp, wp) =>
        Past(w, c, Transfer(s[c..], rp, wp, n, if forever then want else want - c, forever, conv))
  }

  /** One turn, with what happened before it. */
  lemma TransferTurn(front: seq<Byte>, used: nat, s: seq<Byte>, rplan: seq<int>, wplan: seq<int>, n: nat, want: int,
                     forever: bool, conv: Conversion)
    requires forever || want > 0
    ensures Past(front, used, Transfer(s, rplan, wplan, n, want, forever, conv))
         == match TakeTurn(s, rplan, wplan, n, conv)
            case Stop(end, c, w, rp, wp) => Run(end, front + w, used + c, rp, wp)
            case Go(c, w, rp, wp) =>
              Past(front + w, used + c,
                   Transfer(s[c..], rp, wp, n, if forever then want else want - c, forever, conv))
  {
    hide TakeTurn;
    match TakeTurn(s, rplan, wplan, n, conv)
    case Stop(end, c, w, rp, wp) =>
    case Go(c, w, rp, wp) =>
      Regroup(front, w, Transfer(s[c..], rp, wp, n, if forever then want else want - c, forever, conv).written);
  }

  lemma TransferDone(front: seq<Byte>, used: nat, s: seq<Byte>, rplan: seq<int>, wplan: seq<int>, n: nat, want: int,
                     conv: Conversion)
    requires want <= 0
    ensures Past(front, used, Transfer(s, rplan, wplan, n, want, false, conv))
         == Run(Finished, front, used, rplan, wplan)
  {
    assert front + [] == front;
  }

  lemma TransferStep(s: seq<Byte>, rplan: seq<int>, wplan: seq<int>, n: nat, want: int, forever: bool,
                     conv: Conversion)
    ensures Transfer(s, rplan, wplan, n, want, forever, conv)
         == if !forever && want <= 0 then Run(Finished, [], 0, rplan, wplan)
            else
              match TakeTurn(s, rplan, wplan, n, conv)
              case Stop(end, c, w, rp, wp) => Run(end, w, c, rp, wp)
              case Go(c, w, rp, wp) =>
                Past(w, c, Transfer(s[c..], rp, wp, n, if forever then want else want - c, forever, conv))
  {
    hide TakeTurn;
  }

  lemma TurnProgress(s: seq<Byte>, rplan: seq<int>, wplan: seq<int>, n: nat, conv: Conversion)
    ensures var t := TakeTurn(s, rplan, wplan, n, conv);
            t.Go? ==> |t.rplan| < |rplan| || (|t.rplan| == |rplan| && t.chunk > 0)
  {
    hide Deliver;
  }

  lemma NoCalls(rplan: seq<int>, wplan: seq<int>)
    ensures FailsExactly(Finished, rplan, rplan, wplan, wplan)
  {
    ErrorNow(rplan);
    ErrorNow(wplan);
  }

  /** It fails exactly when one of its calls is an error. */
  lemma {:induction false} TransferErrors(s: seq<Byte>, rplan: seq<int>, wplan: seq<int>, n: nat, want: int,
                                          forever: bool, conv: Conversion)
    ensures var t := Transfer(s, rplan, wplan, n, want, forever, conv);
            FailsExactly(t.end, rplan, t.rplan, wplan, t.wplan) && t.end != Unfinished && t.end != Refused
    decreases |rplan|, |s|
  {
    hide *;
    TransferStep(s, rplan, wplan, n, want, forever, conv);
    if !forever && want <= 0 {
      NoCalls(rplan, wplan);
    } else {
      TurnErrors(s, rplan, wplan, n, conv);
      match TakeTurn(s, rplan, wplan, n, conv)
      case Stop(end, c, w, rp, wp) =>
      case Go(c, w, rp, wp) =>
        var more := if forever then want else want - c;
        TurnProgress(s, rplan, wplan, n, conv);
        TransferErrors(s[c..], rp, wp, n, more, forever, conv);
        var t := Transfer(s[c..], rp, wp, n, more, forever, conv);
        PastEnds(w, c, t);
        ErrorsTrans(t.end, rplan, rp, t.rplan, wplan, wp, t.wplan);
    }
  }

  lemma PastEnds(front: seq<Byte>, used: nat, t: Run)
    ensures var p := Past(front, used, t);
            p.end == t.end && p.rplan == t.rplan && p.wplan == t.wplan
  {
  }

  /** A loop that used its schedules up to rp and wp ended by a failed read or write
      exactly when one of those calls was an error. */
  predicate FailsExactly(end: End, rplan: seq<int>, rp: seq<int>, wplan: seq<int>, wp: seq<int>) {
    && Suffix(rp, rplan) && Suffix(wp, wplan)
    && (end == ReadFailed <==> ErrorMet(rplan, rp))
    && (end == WriteFailed <==> ErrorMet(wplan, wp))
  }

  lemma ErrorsTrans(end: End, r0: seq<int>, r1: seq<int>, r2: seq<int>, w0: seq<int>, w1: seq<int>, w2: seq<int>)
    requires FailsExactly(Finished, r0, r1, w0, w1) && FailsExactly(end, r1, r2, w1, w2)
    ensures FailsExactly(end, r0, r2, w0, w2)
  {
    SuffixTrans(r2, r1, r0);
    SuffixTrans(w2, w1, w0);
    ErrorSplit(r0, r1, r2);
    ErrorSplit(w0, w1, w2);
  }

  lemma TurnErrors(s: seq<Byte>, rplan: seq<int>, wplan: seq<int>, n: nat, conv: Conversion)
    ensures var t := TakeTurn(s, rplan, wplan, n, conv);
            FailsExactly(if t.Stop? then t.end else Finished, rplan, t.rplan, wplan, t.wplan)
            && (t.Stop? ==> t.end != Unfinished && t.end != Refused)
  {
    hide Deliver, Suffix, ErrorMet;
    ErrorNow(rplan);
    ErrorNow(wplan);
    var c := Count(rplan, n, |s|);
    if c > 0 {
      DeliverErrors(s[..c], wplan, conv);
    }
  }

  lemma DeliverErrors(chunk: seq<Byte>, wplan: seq<int>, conv: Conversion)
    ensures var d := Deliver(chunk, wplan, conv);
            && Suffix(d.rest, wplan) && (d.end == WriteFailed <==> ErrorMet(wplan, d.rest))
            && (d.end == Finished || d.end == WriteFailed || d.end == Aborted)
  {
    ErrorNow(wplan);
    if !TooShort(|chunk|, conv) {
      var n := |Render(chunk, conv)|;
      WriteLeaves(wplan, n);
      WriteFailsExactly(wplan, n, n);
    }
  }

  // ---------- the reads ----------

  /** The lengths of the non-empty reads of a loop whose writes do not stop it, and
      whether it ends by a failed read. */
  datatype Reads = Reads(lens: seq<nat>, failed: bool)

  function Sum(lens: seq<nat>): nat {
    if lens == [] then 0 else lens[0] + Sum(lens[1..])
  }

  lemma SumCons(c: nat, lens: seq<nat>)
    ensures Sum([c] + lens) == c + Sum(lens)
  {
    assert ([c] + lens)[1..] == lens;
  }

  function ReadLens(avail: nat, rplan: seq<int>, n: nat, want: int, forever: bool): Reads
    decreases |rplan|, avail
  {
    if !forever && want <= 0 then Reads([], false)
    else
      var c := Count(rplan, n, avail);
      if c <= 0 then Reads([], c < 0)
      else
        var r := ReadLens(avail - c, Next(rplan), n, if forever then want else want - c, forever);
        Reads([c] + r.lens, r.failed)
  }

  lemma ReadLensUnfold(avail: nat, rplan: seq<int>, n: nat, want: int, forever: bool)
    ensures var c := Count(rplan, n, avail);
            ReadLens(avail, rplan, n, want, forever)
            == if !forever && want <= 0 then Reads([], false)
               else if c <= 0 then Reads([], c < 0)
               else
                 var r := ReadLens(avail - c, Next(rplan), n, if forever then want else want - c, forever);
                 Reads([c] + r.lens, r.failed)
  {
  }

  /** How far a loop is to read. */
  function Goal(avail: nat, want: int, forever: bool): int {
    if forever then avail else Min(want, avail)
  }

  lemma {:induction false} LensFit(avail: nat, rplan: seq<int>, n: nat, want: int, forever: bool)
    ensures Sum(ReadLens(avail, rplan, n, want, forever).lens) <= avail
    decreases |rplan|, avail
  {
    var c := Count(rplan, n, avail);
    if (forever || want > 0) && c > 0 {
      var more := if forever then want else want - c;
      LensFit(avail - c, Next(rplan), n, more, forever);
      SumCons(c, ReadLens(avail - c, Next(rplan), n, more, forever).lens);
    }
  }

  /** The goal is reached exactly when neither an error nor a read of 0 bytes is scheduled
      before it. */
  lemma {:induction false} ReadsReachGoal(avail: nat, rplan: seq<int>, n: nat, want: int, forever: bool)
    requires n > 0
    ensures Sum(ReadLens(avail, rplan, n, want, forever).lens) >= Goal(avail, want, forever)
       <==> !StopsBefore(rplan, 1, n, Goal(avail, want, forever))
    decreases |rplan|, avail
  {
    hide StopsBefore;
    hide ReadLens;
    var goal := Goal(avail, want, forever);
    var c := Count(rplan, n, avail);
    GoalStep(rplan, n, goal);
    ReadLensUnfold(avail, rplan, n, want, forever);
    if (forever || want > 0) && c > 0 {
      var more := if forever then want else want - c;
      ReadsReachGoal(avail - c, Next(rplan), n, more, forever);
      SumCons(c, ReadLens(avail - c, Next(rplan), n, more, forever).lens);
      GoalStep(Next(rplan), n, goal - c);
      GoalStep(Next(rplan), n, goal - (if rplan == [] then 0 else Offer(rplan[0], n)));
    }
  }

  lemma GoalStep(rplan: seq<int>, n: nat, goal: int)
    ensures rplan == [] || goal <= 0 ==> !StopsBefore(rplan, 1, n, goal)
    ensures rplan != [] && goal > 0 ==>
              (StopsBefore(rplan, 1, n, goal)
               <==> rplan[0] < 1 || StopsBefore(rplan[1..], 1, n, goal - Offer(rplan[0], n)))
  {
    if rplan != [] {
      StopsStep(rplan, 1, n, goal);
    }
  }

  /** A loop with a limit reads less than a buffer past it. */
  lemma {:induction false} ReadsStopAtLimit(avail: nat, rplan: seq<int>, n: nat, want: int)
    requires n > 0
    ensures Sum(ReadLens(avail, rplan, n, want, false).lens) <= if want <= 0 then 0 else want + n - 1
    decreases |rplan|, avail
  {
    var c := Count(rplan, n, avail);
    if want > 0 && c > 0 {
      ReadsStopAtLimit(avail - c, Next(rplan), n, want - c);
      SumCons(c, ReadLens(avail - c, Next(rplan), n, want - c, false).lens);
    }
  }

  /** The reads before the first that is too short to be converted. */
  function Sound(lens: seq<nat>, conv: Conversion): (r: seq<nat>)
    ensures Sum(r) <= Sum(lens)
  {
    if lens == [] || TooShort(lens[0], conv) then [] else
      var r := Sound(lens[1..], conv);
      SumCons(lens[0], r);
      [lens[0]] + r
  }

  /** No write fails while these reads are rendered and written. */
  predicate Deliverable(wplan: seq<int>, lens: seq<nat>, conv: Conversion)
    decreases |lens|
  {
    lens == [] ||
    var w := WriteRun(wplan, Rendered(lens[0], conv));
    w.ok && Deliverable(w.rest, lens[1..], conv)
  }

  /** How many bytes the writes get out. */
  function Out(wplan: seq<int>, lens: seq<nat>, conv: Conversion): nat
    decreases |lens|
  {
    if lens == [] then 0
    else
      var w := WriteRun(wplan, Rendered(lens[0], conv));
      w.done + if w.ok then Out(w.rest, lens[1..], conv) else 0
  }

  /** The renderings of successive reads. */
  function Streamed(s: seq<Byte>, lens: seq<nat>, conv: Conversion): seq<Byte>
    requires Sum(lens) <= |s|
    decreases |lens|
  {
    if lens == [] then [] else Render(s[..lens[0]], conv) + Streamed(s[lens[0]..], lens[1..], conv)
  }

  lemma ConsSteps(c: nat, lens: seq<nat>, s: seq<Byte>, wplan: seq<int>, conv: Conversion)
    requires c + Sum(lens) <= |s|
    ensures Sum([c] + lens) == c + Sum(lens)
    ensures Streamed(s, [c] + lens, conv) == Render(s[..c], conv) + Streamed(s[c..], lens, conv)
    ensures var w := WriteRun(wplan, Rendered(c, conv));
            && (Deliverable(wplan, [c] + lens, conv) <==> w.ok && Deliverable(w.rest, lens, conv))
            && Out(wplan, [c] + lens, conv) == w.done + if w.ok then Out(w.rest, lens, conv) else 0
    ensures Sound([c] + lens, conv) == if TooShort(c, conv) then [] else [c] + Sound(lens, conv)
  {
    SumCons(c, lens);
    assert ([c] + lens)[1..] == lens;
  }

  /** How the loop ends and what it writes, for every input and all schedules: its reads
      are rendered and written one by one up to the first that is too short. */
  lemma {:induction false} TransferExact(s: seq<Byte>, rplan: seq<int>, wplan: seq<int>, n: nat, want: int,
                                         forever: bool, conv: Conversion)
    ensures var t := Transfer(s, rplan, wplan, n, want, forever, conv);
            var r := ReadLens(|s|, rplan, n, want, forever);
            Classified(t, s, r, wplan, conv)
    decreases |rplan|, |s|
  {
    hide *;
    var c := Count(rplan, n, |s|);
    TransferUnfold(s, rplan, wplan, n, want, forever, conv);
    ReadLensUnfold(|s|, rplan, n, want, forever);
    if !(forever || want > 0) || c <= 0 {
      ClassifiedEnd(Transfer(s, rplan, wplan, n, want, forever, conv), s, c < 0 && (forever || want > 0), wplan, conv);
    } else {
      var more := if forever then want else want - c;
      var d := Deliver(s[..c], wplan, conv);
      var r := ReadLens(|s| - c, Next(rplan), n, more, forever);
      LensFit(|s| - c, Next(rplan), n, more, forever);
      if d.end == Finished {
        NextShorter(rplan);
        TransferExact(s[c..], Next(rplan), d.rest, n, more, forever, conv);
        ClassifiedStep(Transfer(s[c..], Next(rplan), d.rest, n, more, forever, conv), s, c, r, wplan, conv);
      } else {
        ClassifiedStop(Transfer(s, rplan, wplan, n, want, forever, conv), s, c, r, wplan, conv);
      }
    }
  }

  lemma NextShorter(plan: seq<int>)
    ensures |Next(plan)| == if plan == [] then 0 else |plan| - 1
  {
  }

  lemma TransferUnfold(s: seq<Byte>, rplan: seq<int>, wplan: seq<int>, n: nat, want: int, forever: bool,
                       conv: Conversion)
    ensures var t := Transfer(s, rplan, wplan, n, want, forever, conv);
            var c := Count(rplan, n, |s|);
            if !forever && want <= 0 then t == Run(Finished, [], 0, rplan, wplan)
            else if c < 0 then t == Run(ReadFailed, [], 0, Next(rplan), wplan)
            else if c == 0 then t == Run(Finished, [], 0, Next(rplan), wplan)
            else
              var d := Deliver(s[..c], wplan, conv);
              if d.end == Finished then
                t == Past(d.written, c,
                          Transfer(s[c..], Next(rplan), d.rest, n, if forever then want else want - c, forever, conv))
              else t == Run(d.end, d.written, c, Next(rplan), d.rest)
  {
    hide Deliver;
  }

  predicate Classified(t: Run, s: seq<Byte>, r: Reads, wplan: seq<int>, conv: Conversion) {
    var ok := Sound(r.lens, conv);
    && Sum(r.lens) <= |s|
    && t.end == (if !Deliverable(wplan, ok, conv) then WriteFailed
                 else if ok != r.lens then Aborted
                 else if r.failed then ReadFailed
                 else Finished)
    && t.written <= Streamed(s, ok, conv) && |t.written| == Out(wplan, ok, conv)
    && (t.end != WriteFailed ==> t.written == Streamed(s, ok, conv))
    && (t.end == Finished || t.end == ReadFailed ==> t.used == Sum(r.lens))
  }

  lemma ClassifiedEnd(t: Run, s: seq<Byte>, failed: bool, wplan: seq<int>, conv: Conversion)
    requires t.end == (if failed then ReadFailed else Finished) && t.written == [] && t.used == 0
    ensures Classified(t, s, Reads([], failed), wplan, conv)
  {
  }

  lemma ClassifiedStop(t: Run, s: seq<Byte>, c: nat, r: Reads, wplan: seq<int>, conv: Conversion)
    requires 0 < c <= |s| && Sum(r.lens) <= |s| - c
    requires var d := Deliver(s[..c], wplan, conv);
             d.end != Finished && t.end == d.end && t.written == d.written && t.used == c
    ensures Classified(t, s, Reads([c] + r.lens, r.failed), wplan, conv)
  {
    ConsSteps(c, r.lens, s, wplan, conv);
    ConsSteps(c, Sound(r.lens, conv), s, wplan, conv);
    RenderLength(s[..c], conv);
    assert TooShort(|s[..c]|, conv) <==> TooShort(c, conv);
    assert Deliverable(wplan, [], conv) && Streamed(s, [], conv) == [];
    var out := Render(s[..c], conv);
    assert out[..WriteRun(wplan, |out|).done] <= out + Streamed(s[c..], Sound(r.lens, conv), conv);
  }

  lemma ClassifiedStep(t: Run, s: seq<Byte>, c: nat, r: Reads, wplan: seq<int>, conv: Conversion)
    requires 0 < c <= |s| && Deliver(s[..c], wplan, conv).end == Finished
    requires Classified(t, s[c..], r, Deliver(s[..c], wplan, conv).rest, conv)
    ensures Classified(Past(Deliver(s[..c], wplan, conv).written, c, t), s, Reads([c] + r.lens, r.failed), wplan,
                       conv)
  {
    DeliverFinished(s[..c], wplan, conv);
    RenderLength(s[..c], conv);
    hide Deliver, Render, Rendered, Streamed, Deliverable, Out, Sound, Sum, WriteRun, TooShort;
    ConsSteps(c, r.lens, s, wplan, conv);
    ConsSteps(c, Sound(r.lens, conv), s, wplan, conv);
    PrefixOfSum(Render(s[..c], conv), t.written, Streamed(s[c..], Sound(r.lens, conv), conv));
    SameAfter(c, Sound(r.lens, conv), r.lens);
  }

  lemma SameAfter(c: nat, a: seq<nat>, b: seq<nat>)
    ensures [c] + a == [c] + b <==> a == b
  {
    assert ([c] + a)[1..] == a && ([c] + b)[1..] == b;
  }

  lemma PrefixOfSum(a: seq<Byte>, b: seq<Byte>, c: seq<Byte>)
    ensures b <= c ==> a + b <= a + c
  {
  }

  lemma DeliverFinished(chunk: seq<Byte>, wplan: seq<int>, conv: Conversion)
    ensures var d := Deliver(chunk, wplan, conv);
            var w := WriteRun(wplan, Rendered(|chunk|, conv));
            d.end == Finished ==>
              d.written == Render(chunk, conv) && w.ok && d.rest == w.rest && !TooShort(|chunk|, conv)
  {
    RenderLength(chunk, conv);
  }
}
