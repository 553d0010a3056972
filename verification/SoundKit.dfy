/** The stream loops of sndkit.c: play, record, makewav and strip_wav. */
module SoundKit {
  import opened Bytes
  import opened Streams
  import opened StreamRuns
  import opened Wav
  import opened WavHeader

  const FILE_BLOCK_LEN := 4096

  /** From a read position and written bytes on, src and dst were used as r says. */
  ghost predicate Did(src: InFile, dst: OutFile, pos: nat, written: seq<Byte>, r: Run)
    reads src, dst
  {
    && src.pos == pos + r.used && src.plan == r.rplan
    && dst.written == written + r.written && dst.plan == r.wplan
  }

  lemma DidSo(src: InFile, dst: OutFile, pos: nat, written: seq<Byte>, r: Run)
    requires src.pos == pos + r.used && src.plan == r.rplan
    requires dst.written == written + r.written && dst.plan == r.wplan
    ensures Did(src, dst, pos, written, r)
  {
  }

  // ---------- play ----------

  /** The allocation has room for the widening of a full buffer. */
  method PlayAllocSize(bufferSize: nat, format24: bool) returns (allocSize: nat)
    ensures bufferSize <= allocSize && (format24 ==> bufferSize / 3 * 4 <= allocSize)
  {
    allocSize := bufferSize;
    if format24 {
      if bufferSize % 3 != 0 {
        allocSize := bufferSize / 3 + 1;
        allocSize := allocSize * 3;
      }
      allocSize := allocSize / 3 * 4;
    }
  }

  /** Aborted is the failed assertion of the widening on fewer than three samples. */
  method Play(src: InFile, dev: OutFile, bufferSize: nat, replayDataLen: int, format24: bool, wav: bool)
    returns (end: End)
    requires src.pos <= |src.data|
    modifies src, dev
    ensures var r := Transfer(old(src.Rest()), old(src.plan), old(dev.plan), bufferSize, replayDataLen,
                              replayDataLen == 0, if wav && format24 then Expand else Plain);
            end == r.end && Did(src, dev, old(src.pos), old(dev.written), r)
  {
    hide *;
    var conv := if wav && format24 then Expand else Plain;
    var allocSize := PlayAllocSize(bufferSize, format24);
    var buff := new Byte[allocSize];
    var dataLen := replayDataLen;
    var forever := dataLen == 0;
    ghost var front, start, base := [], src.pos, dev.written;
    ghost var all := Transfer(src.Rest(), src.plan, dev.plan, bufferSize, dataLen, forever, conv);
    AllToDo(src, dev, bufferSize, dataLen, forever, conv);
    while forever || dataLen > 0
      invariant start <= src.pos <= |src.data| && dev.written == base + front
      invariant all == ToDo(src, dev, front, src.pos - start, bufferSize, dataLen, forever, conv)
      decreases |src.plan|, |src.data| - src.pos
    {
      var len;
      end, len, front := MoveChunk(src, dev, buff, bufferSize, conv, dataLen, forever, start, base, front);
      if end != Finished || len == 0 {
        DidSo(src, dev, start, base, all);
        return;
      }
      if !forever {
        dataLen := dataLen - len;
      }
    }
    AllDone(src, dev, front, src.pos - start, bufferSize, dataLen, conv);
    DidSo(src, dev, start, base, all);
    end := Finished;
  }

  /** What is still to do when front has been written and used bytes have been read. */
  ghost function ToDo(src: InFile, dev: OutFile, front: seq<Byte>, used: nat, n: nat, want: int, forever: bool,
                      conv: Conversion): Run
    requires src.pos <= |src.data|
    reads src, dev
  {
    Past(front, used, Transfer(src.Rest(), src.plan, dev.plan, n, want, forever, conv))
  }

  lemma AllDone(src: InFile, dev: OutFile, front: seq<Byte>, used: nat, n: nat, want: int, conv: Conversion)
    requires src.pos <= |src.data| && want <= 0
    ensures ToDo(src, dev, front, used, n, want, false, conv) == Run(Finished, front, used, src.plan, dev.plan)
  {
    TransferDone(front, used, src.Rest(), src.plan, dev.plan, n, want, conv);
  }

  lemma AllToDo(src: InFile, dev: OutFile, n: nat, want: int, forever: bool, conv: Conversion)
    requires src.pos <= |src.data|
    ensures ToDo(src, dev, [], 0, n, want, forever, conv)
         == Transfer(src.Rest(), src.plan, dev.plan, n, want, forever, conv)
  {
  }

  /** One turn of the loops of play, makewav and strip_wav: read, convert, write. len is
      what read() returned, want what is left to read. */
  method MoveChunk(src: InFile, dev: OutFile, buff: array<Byte>, n: nat, conv: Conversion, ghost want: int,
                   ghost forever: bool, ghost start: nat, ghost base: seq<Byte>, ghost front: seq<Byte>)
    returns (end: End, len: int, ghost now: seq<Byte>)
    requires n <= buff.Length && start <= src.pos <= |src.data| && dev.written == base + front
    requires conv == Expand ==> n / 3 * 4 <= buff.Length
    requires conv != Pack && (forever || want > 0)
    modifies src, dev, buff
    ensures old(src.pos) <= src.pos <= |src.data| && dev.written == base + now
    ensures old(ToDo(src, dev, front, src.pos - start, n, want, forever, conv))
         == if end != Finished || len == 0 then Run(end, now, src.pos - start, src.plan, dev.plan)
            else ToDo(src, dev, now, src.pos - start, n, if forever then want else want - len, forever, conv)
    ensures end == Finished ==> len == src.pos - old(src.pos)
    ensures |src.plan| <= |old(src.plan)|
    ensures end == Finished && len != 0 ==> |src.plan| < |old(src.plan)| || src.pos > old(src.pos)
  {
    hide Transfer, TakeTurn;
    TransferTurn(front, src.pos - start, src.Rest(), src.plan, dev.plan, n, want, forever, conv);
    end, len, now := MoveOne(src, dev, buff, n, conv, base, front);
  }

  /** The read, the conversion and the writes of one turn. */
  method MoveOne(src: InFile, dev: OutFile, buff: array<Byte>, n: nat, conv: Conversion,
                 ghost base: seq<Byte>, ghost front: seq<Byte>)
    returns (end: End, len: int, ghost now: seq<Byte>)
    requires n <= buff.Length && src.pos <= |src.data| && dev.written == base + front
    requires conv == Expand ==> n / 3 * 4 <= buff.Length
    requires conv != Pack
    modifies src, dev, buff
    ensures old(src.pos) <= src.pos <= |src.data| && dev.written == base + now
    ensures var t := TakeTurn(old(src.Rest()), old(src.plan), old(dev.plan), n, conv);
            && end == (if t.Stop? then t.end else Finished) && (end == Finished ==> len == t.chunk)
            && (t.Go? <==> end == Finished && len != 0)
            && now == front + t.written && src.pos == old(src.pos) + t.chunk
            && src.Rest() == old(src.Rest())[t.chunk..]
            && src.plan == t.rplan && dev.plan == t.wplan
  {
    hide Deliver;
    len := src.Read(buff, 0, n);
    now := front;
    assert now == front + [];
    if len < 0 {
      return ReadFailed, len, now;
    }
    if len == 0 {
      return Finished, len, now;
    }
    FrontAndRest(src.data, old(src.pos), len);
    assert buff[..len] == buff[0..0 + len];
    ghost var d := Deliver(buff[..len], dev.plan, conv);
    end := PlayChunk(dev, buff, len, conv);
    now := front + d.written;
    Regroup(base, front, d.written);
  }

  /** Convert what was read and write it. */
  method PlayChunk(dev: OutFile, buff: array<Byte>, length: nat, conv: Conversion) returns (end: End)
    requires length <= buff.Length
    requires conv == Expand ==> (length / 3 * 4) <= buff.Length
    requires conv != Pack
    modifies dev, buff
    ensures var d := Deliver(old(buff[..length]), old(dev.plan), conv);
            end == d.end && dev.written == old(dev.written) + d.written && dev.plan == d.rest
  {
    var len := length;
    if conv == Expand {
      if len / 3 < 3 {
        assert dev.written == dev.written + [];
        return Aborted;
      }
      len := ExpandChunk(buff, len);
    }
    var ok := WriteAll(dev, buff, len);
    end := if ok then Finished else WriteFailed;
  }

  method ExpandChunk(buff: array<Byte>, length: nat) returns (len: nat)
    requires length / 3 >= 3 && length / 3 * 4 <= buff.Length && length <= buff.Length
    modifies buff
    ensures len <= buff.Length && buff[..len] == Widen(old(buff[..length])) && len == |Widen(old(buff[..length]))|
  {
    ghost var chunk := buff[..length];
    WidenWhole(chunk);
    WidenLength(chunk);
    assert chunk[..length / 3 * 3] == buff[..length / 3 * 3];
    len := length / 3 * 3;
    assert len / 3 == length / 3;
    WavExpand24bitTo32bit(buff, len);
    len := len / 3 * 4;
  }

  // ---------- copying blocks between files ----------

  /** The block loop of makewav and strip_wav: it stops once at least len bytes are copied
      or at the end of the input. */
  method CopyBlocks(src: InFile, dst: OutFile, buff: array<Byte>, len: int) returns (end: End)
    requires buff.Length == FILE_BLOCK_LEN && src.pos <= |src.data|
    modifies src, dst, buff
    ensures var r := Transfer(old(src.Rest()), old(src.plan), old(dst.plan), FILE_BLOCK_LEN, len, false, Plain);
            end == r.end && Did(src, dst, old(src.pos), old(dst.written), r)
  {
    hide *;
    var left := len;
    ghost var front, start, base := [], src.pos, dst.written;
    ghost var all := Transfer(src.Rest(), src.plan, dst.plan, FILE_BLOCK_LEN, left, false, Plain);
    AllToDo(src, dst, FILE_BLOCK_LEN, left, false, Plain);
    while left > 0
      invariant start <= src.pos <= |src.data| && dst.written == base + front
      invariant all == ToDo(src, dst, front, src.pos - start, FILE_BLOCK_LEN, left, false, Plain)
      decreases |src.plan|, |src.data| - src.pos
    {
      var n;
      end, n, front := MoveChunk(src, dst, buff, FILE_BLOCK_LEN, Plain, left, false, start, base, front);
      if end != Finished || n == 0 {
        DidSo(src, dst, start, base, all);
        return;
      }
      left := left - n;
    }
    AllDone(src, dst, front, src.pos - start, FILE_BLOCK_LEN, left, Plain);
    DidSo(src, dst, start, base, all);
    end := Finished;
  }

  // ---------- makewav ----------

  /** The header, and after it what a loop writes with the schedule of writes that is left. */
  function WithHeader(header: seq<Byte>, rplan: seq<int>, w: Wrote, after: Run): Run {
    if w.ok then Past(header, 0, after)
    else Run(WriteFailed, header[..Min(w.done, |header|)], 0, rplan, w.rest)
  }

  /** makewav on a raw file of which stat() reports the size fileLen. */
  function MakeRun(raw: seq<Byte>, rplan: seq<int>, wplan: seq<int>, fileLen: Int32, header: seq<Byte>): Run {
    var w := WriteRun(wplan, |header|);
    WithHeader(header, rplan, w, Transfer(raw, rplan, w.rest, FILE_BLOCK_LEN, fileLen, false, Plain))
  }

  method MakeWav(wav: OutFile, raw: InFile, fileLen: Int32, channels: Word32, speed: Word32, bits: Word32)
    returns (ret: int)
    requires raw.pos <= |raw.data|
    modifies wav, raw
    ensures var r := MakeRun(old(raw.Rest()), old(raw.plan), old(wav.plan), fileLen,
                             WrittenHeader(fileLen, channels, speed, bits));
            && ret == (if r.end == Finished then 0 else -1)
            && Did(raw, wav, old(raw.pos), old(wav.written), r)
  {
    hide Transfer, WriteRun, WrittenHeader;
    ghost var header := WrittenHeader(fileLen, channels, speed, bits);
    var wavHead := new Byte[WAV_HEAD_SIZE];
    InitWavHeader(wavHead, fileLen, channels, speed, bits);
    var ok := WriteAll(wav, wavHead, WAV_HEAD_SIZE);
    if !ok {
      return -1;
    }
    assert header[..WAV_HEAD_SIZE] == header;
    var buff := new Byte[FILE_BLOCK_LEN];
    ghost var after := Transfer(raw.Rest(), raw.plan, wav.plan, FILE_BLOCK_LEN, fileLen, false, Plain);
    Regroup(old(wav.written), header, after.written);
    var end := CopyBlocks(raw, wav, buff, fileLen);
    ret := if end == Finished then 0 else -1;
  }

  // ---------- strip_wav ----------

  lemma HeadInside(s: seq<Byte>)
    ensures Parse(s).Header? ==> Parse(s).headLen <= |s|
  {
  }

  /** The first read must give 256 bytes and the parser a data length. */
  predicate Accepts(file: seq<Byte>, rplan: seq<int>) {
    Count(rplan, MAX_WAV_HEAD_SIZE, |file|) == MAX_WAV_HEAD_SIZE && DataLength(Parse(file[..MAX_WAV_HEAD_SIZE])) != 0
  }

  /** strip_wav on a file read from its start; used is the position at the end. */
  function StripRun(file: seq<Byte>, rplan: seq<int>, wplan: seq<int>): Run {
    if Accepts(file, rplan) then
      var head := Parse(file[..MAX_WAV_HEAD_SIZE]);
      HeadInside(file[..MAX_WAV_HEAD_SIZE]);
      Past([], head.headLen,
           Transfer(file[head.headLen..], Next(rplan), wplan, FILE_BLOCK_LEN, head.dataLen, false, Plain))
    else
      var c := Count(rplan, MAX_WAV_HEAD_SIZE, |file|);
      Run(Refused, [], if c < 0 then 0 else c, Next(rplan), wplan)
  }

  /** A failed read does not show in the return value. */
  function StripReturn(end: End): int { if end == Refused || end == WriteFailed then -1 else 0 }

  /** The first read and the parse: refused files return a data length of 0. The parser
      sees the whole block buffer, of which only the first 256 bytes are the file's. */
  method ReadHead(wav: InFile, buff: array<Byte>) returns (r: Parsed)
    requires wav.pos == 0 && buff.Length == FILE_BLOCK_LEN
    requires Count(wav.plan, MAX_WAV_HEAD_SIZE, |wav.data|) == MAX_WAV_HEAD_SIZE ==>
               Parse(wav.data[..MAX_WAV_HEAD_SIZE]) != OutOfBounds
    modifies wav, buff
    ensures wav.pos <= |wav.data| && wav.plan == Next(old(wav.plan))
    ensures var c := Count(old(wav.plan), MAX_WAV_HEAD_SIZE, |wav.data|);
            && wav.pos == (if c < 0 then 0 else c)
            && r == if c == MAX_WAV_HEAD_SIZE then Parse(wav.data[..MAX_WAV_HEAD_SIZE]) else NotWav
  {
    hide Parse;
    var len := wav.Read(buff, 0, MAX_WAV_HEAD_SIZE);
    if len != MAX_WAV_HEAD_SIZE {
      return NotWav;
    }
    ghost var first := wav.data[..MAX_WAV_HEAD_SIZE];
    assert buff[0..0 + len] == first;
    assert buff[..] == first + buff[MAX_WAV_HEAD_SIZE..];
    ParseMonotone(first, buff[MAX_WAV_HEAD_SIZE..]);
    r := ParseWavHeader(buff);
  }

  /** The promise covers files whose header lies inside the 256 bytes read for it. */
  method StripWav(raw: OutFile, wav: InFile) returns (ret: int)
    requires wav.pos == 0
    requires Count(wav.plan, MAX_WAV_HEAD_SIZE, |wav.data|) == MAX_WAV_HEAD_SIZE ==>
               Parse(wav.data[..MAX_WAV_HEAD_SIZE]) != OutOfBounds
    modifies raw, wav
    ensures var r := StripRun(wav.data, old(wav.plan), old(raw.plan));
            ret == StripReturn(r.end) && Did(wav, raw, 0, old(raw.written), r)
  {
    hide Parse, Transfer;
    var buff := new Byte[FILE_BLOCK_LEN];
    var header := ReadHead(wav, buff);
    var wavDataLen := DataLength(header);
    if wavDataLen == 0 {
      return -1;
    }
    HeadInside(wav.data[..MAX_WAV_HEAD_SIZE]);
    wav.Seek(header.headLen);
    NothingBefore(wav.data, header.headLen, wav.plan, raw.plan, wavDataLen);
    var end := CopyBlocks(wav, raw, buff, wavDataLen);
    ret := if end == WriteFailed then -1 else 0;
  }

  lemma NothingBefore(file: seq<Byte>, at: nat, rplan: seq<int>, wplan: seq<int>, want: int)
    requires at <= |file|
    ensures var t := Transfer(file[at..], rplan, wplan, FILE_BLOCK_LEN, want, false, Plain);
            [] + t.written == t.written && t.end != Refused
  {
    TransferErrors(file[at..], rplan, wplan, FILE_BLOCK_LEN, want, false, Plain);
  }

  // ---------- record ----------

  /** record as long as the schedule of reads lasts: a zero-byte read is retried, and left
      goes down by what is written. */
  function RecordRun(s: seq<Byte>, rplan: seq<int>, wplan: seq<int>, n: nat, left: int, conv: Conversion): (r: Run)
    ensures |r.rplan| <= |rplan| && r.used <= |s|
    decreases |rplan|
  {
    if left <= 0 then Run(Finished, [], 0, rplan, wplan)
    else if rplan == [] then Run(Unfinished, [], 0, rplan, wplan)
    else
      match TakeTurn(s, rplan, wplan, Min(n, left), conv)
      case Stop(end, c, w, rp, wp) =>
        if end == Finished then RecordRun(s, rp, wp, n, left, conv) else Run(end, w, c, rp, wp)
      case Go(c, w, rp, wp) =>
        Past(w, c, RecordRun(s[c..], rp, wp, n, left - |w|, conv))
  }

  /** One turn, with what happened before it. */
  lemma RecordStep(front: seq<Byte>, used: nat, s: seq<Byte>, rplan: seq<int>, wplan: seq<int>, n: nat, left: nat,
                   conv: Conversion)
    requires left > 0 && rplan != []
    ensures Past(front, used, RecordRun(s, rplan, wplan, n, left, conv))
         == match TakeTurn(s, rplan, wplan, Min(n, left), conv)
            case Stop(end, c, w, rp, wp) =>
              if end == Finished then Past(front, used, RecordRun(s, rp, wp, n, left, conv))
              else Run(end, front + w, used + c, rp, wp)
            case Go(c, w, rp, wp) => Past(front + w, used + c, RecordRun(s[c..], rp, wp, n, left - |w|, conv))
  {
    hide TakeTurn;
    match TakeTurn(s, rplan, wplan, Min(n, left), conv)
    case Stop(end, c, w, rp, wp) =>
    case Go(c, w, rp, wp) =>
      Regroup(front, w, RecordRun(s[c..], rp, wp, n, left - |w|, conv).written);
  }

  lemma RecordDone(dev: InFile, file: OutFile, front: seq<Byte>, used: nat, n: nat, left: int, conv: Conversion)
    requires dev.pos <= |dev.data| && (left <= 0 || dev.plan == [])
    ensures RecordToDo(dev, file, front, used, n, left, conv)
         == Run(if left <= 0 then Finished else Unfinished, front, used, dev.plan, file.plan)
  {
    assert front + [] == front;
  }

  lemma AllToRecord(dev: InFile, file: OutFile, n: nat, left: int, conv: Conversion)
    requires dev.pos <= |dev.data|
    ensures RecordToDo(dev, file, [], 0, n, left, conv) == RecordRun(dev.Rest(), dev.plan, file.plan, n, left, conv)
  {
  }

  ghost function RecordToDo(dev: InFile, file: OutFile, front: seq<Byte>, used: nat, n: nat, left: int,
                            conv: Conversion): Run
    requires dev.pos <= |dev.data|
    reads dev, file
  {
    Past(front, used, RecordRun(dev.Rest(), dev.plan, file.plan, n, left, conv))
  }

  method Record(dev: InFile, file: OutFile, bufferSize: nat, length: int, wav24: bool) returns (end: End)
    requires dev.pos <= |dev.data|
    requires wav24 ==> bufferSize % 4 == 0
    modifies dev, file
    ensures var r := RecordRun(old(dev.Rest()), old(dev.plan), old(file.plan), bufferSize, length,
                               if wav24 then Pack else Plain);
            end == r.end && Did(dev, file, old(dev.pos), old(file.written), r)
  {
    hide *;
    var conv := if wav24 then Pack else Plain;
    var buff := new Byte[bufferSize];
    var recordLen := length;
    ghost var front, start, base := [], dev.pos, file.written;
    ghost var all := RecordRun(dev.Rest(), dev.plan, file.plan, bufferSize, recordLen, conv);
    AllToRecord(dev, file, bufferSize, recordLen, conv);
    while recordLen > 0 && |dev.plan| > 0
      invariant start <= dev.pos <= |dev.data| && file.written == base + front
      invariant all == RecordToDo(dev, file, front, dev.pos - start, bufferSize, recordLen, conv)
      decreases |dev.plan|
    {
      var n;
      end, n, front := RecordTurn(dev, file, buff, bufferSize, recordLen, conv, start, base, front);
      if end != Finished {
        DidSo(dev, file, start, base, all);
        return;
      }
      recordLen := recordLen - n;
    }
    RecordDone(dev, file, front, dev.pos - start, bufferSize, recordLen, conv);
    DidSo(dev, file, start, base, all);
    end := if recordLen > 0 then Unfinished else Finished;
  }

  /** One turn of the loop; n is how much of the recording it makes. */
  method RecordTurn(dev: InFile, file: OutFile, buff: array<Byte>, bufferSize: nat, recordLen: nat, conv: Conversion,
                    ghost start: nat, ghost base: seq<Byte>, ghost front: seq<Byte>)
    returns (end: End, n: nat, ghost now: seq<Byte>)
    requires buff.Length == bufferSize && start <= dev.pos <= |dev.data| && recordLen > 0 && |dev.plan| > 0
    requires (conv == Pack ==> bufferSize % 4 == 0) && conv != Expand && file.written == base + front
    modifies dev, file, buff
    ensures old(dev.pos) <= dev.pos <= |dev.data| && file.written == base + now
    ensures |dev.plan| < |old(dev.plan)|
    ensures old(RecordToDo(dev, file, front, dev.pos - start, bufferSize, recordLen, conv))
         == if end != Finished then Run(end, now, dev.pos - start, dev.plan, file.plan)
            else RecordToDo(dev, file, now, dev.pos - start, bufferSize, recordLen - n, conv)
  {
    hide RecordRun, TakeTurn;
    RecordStep(front, dev.pos - start, dev.Rest(), dev.plan, file.plan, bufferSize, recordLen, conv);
    end, n, now := RecordOne(dev, file, buff, bufferSize, recordLen, conv, base, front);
  }

  method RecordOne(dev: InFile, file: OutFile, buff: array<Byte>, bufferSize: nat, recordLen: nat, conv: Conversion,
                   ghost base: seq<Byte>, ghost front: seq<Byte>)
    returns (end: End, n: nat, ghost now: seq<Byte>)
    requires buff.Length == bufferSize && dev.pos <= |dev.data| && recordLen > 0 && |dev.plan| > 0
    requires (conv == Pack ==> bufferSize % 4 == 0) && conv != Expand && file.written == base + front
    modifies dev, file, buff
    ensures old(dev.pos) <= dev.pos <= |dev.data| && file.written == base + now
    ensures |dev.plan| < |old(dev.plan)|
    ensures var t := TakeTurn(old(dev.Rest()), old(dev.plan), old(file.plan), Min(bufferSize, recordLen), conv);
            && end == (if t.Stop? then t.end else Finished)
            && now == front + t.written && (end == Finished ==> n == |t.written|)
            && dev.pos == old(dev.pos) + t.chunk && dev.Rest() == old(dev.Rest())[t.chunk..]
            && (t.Stop? && end == Finished ==> t.chunk == 0 && t.written == [])
            && dev.plan == t.rplan && file.plan == t.wplan
  {
    hide Deliver;
    n := 0;
    now := front;
    assert now == front + [];
    var nRead := dev.Read(buff, 0, Min(bufferSize, recordLen));
    if nRead < 0 {
      return ReadFailed, n, now;
    }
    if nRead == 0 {
      return Finished, n, now;
    }
    FrontAndRest(dev.data, old(dev.pos), nRead);
    assert buff[..nRead] == buff[0..0 + nRead];
    ghost var d := Deliver(buff[..nRead], file.plan, conv);
    end, n := RecordChunk(file, buff, nRead, recordLen, conv);
    now := front + d.written;
    Regroup(base, front, d.written);
  }

  /** Convert what was read and write it; n is how much of the recording that makes. */
  method RecordChunk(file: OutFile, buff: array<Byte>, nRead: nat, recordLen: nat, conv: Conversion)
    returns (end: End, n: nat)
    requires 0 < nRead <= buff.Length && nRead <= recordLen
    requires conv == Pack ==> (nRead + 3) / 4 * 4 <= buff.Length
    requires conv != Expand
    modifies file, buff
    ensures var d := Deliver(old(buff[..nRead]), old(file.plan), conv);
            && end == d.end && file.written == old(file.written) + d.written && file.plan == d.rest
            && (end == Finished ==> n == |d.written|)
  {
    var len := nRead;
    if conv == Pack {
      len := PackChunk(buff, len);
    }
    n := Min(len, recordLen);
    var ok := WriteAll(file, buff, n);
    end := if ok then Finished else WriteFailed;
  }

  method PackChunk(buff: array<Byte>, length: nat) returns (len: nat)
    requires (length + 3) / 4 * 4 <= buff.Length
    modifies buff
    ensures len <= buff.Length && len == length / 4 * 3 && buff[..len] == Narrow(old(buff[..length]))
  {
    ghost var chunk, all := buff[..length], buff[..(length + 3) / 4 * 4];
    Wav32bitTo24bit(buff, length);
    len := length / 4 * 3;
    assert chunk == all[..length];
    WholeGroups(all, length);
    assert buff[..len] == buff[..(length + 3) / 4 * 3][..len];
  }

  /** Of an incomplete last group of four only what Narrow drops is converted. */
  lemma WholeGroups(all: seq<Byte>, length: nat)
    requires |all| == (length + 3) / 4 * 4
    ensures |Narrow(all)| == (length + 3) / 4 * 3 && Narrow(all)[..length / 4 * 3] == Narrow(all[..length])
  {
    hide Narrow;
    var whole := length / 4 * 4;
    NarrowLength(all);
    NarrowLength(all[..whole]);
    assert all == all[..whole] + all[whole..];
    NarrowConcat(all[..whole], all[whole..]);
    NarrowWhole(all[..length]);
    assert all[..length][..whole] == all[..whole];
  }

  // ---------- a WAV recording ----------

  /** What main does for a WAV recording: write the header, then record. recordLen is
      bits * channels * speed / 8 * duration, the same in both places. */
  function RecordWavRun(s: seq<Byte>, rplan: seq<int>, wplan: seq<int>, n: nat, recordLen: Int32, header: seq<Byte>,
                        conv: Conversion): Run
  {
    var w := WriteRun(wplan, |header|);
    WithHeader(header, rplan, w, RecordRun(s, rplan, w.rest, n, recordLen, conv))
  }

  method RecordWav(dev: InFile, file: OutFile, bufferSize: nat, bits: Word32, channels: Word32, speed: Word32,
                   recordLen: Int32)
    returns (end: End)
    requires dev.pos <= |dev.data|
    requires bits == 24 ==> bufferSize % 4 == 0
    modifies dev, file
    ensures var r := RecordWavRun(old(dev.Rest()), old(dev.plan), old(file.plan), bufferSize, recordLen,
                                  WrittenHeader(recordLen, channels, speed, bits), if bits == 24 then Pack else Plain);
            end == r.end && Did(dev, file, old(dev.pos), old(file.written), r)
  {
    hide RecordRun, WriteRun, WrittenHeader;
    ghost var header := WrittenHeader(recordLen, channels, speed, bits);
    var wavHead := new Byte[WAV_HEAD_SIZE];
    InitWavHeader(wavHead, recordLen, channels, speed, bits);
    var ok := WriteAll(file, wavHead, WAV_HEAD_SIZE);
    if !ok {
      return WriteFailed;
    }
    assert header[..WAV_HEAD_SIZE] == header;
    ghost var after := RecordRun(dev.Rest(), dev.plan, file.plan, bufferSize, recordLen,
                                 if bits == 24 then Pack else Plain);
    Regroup(old(file.written), header, after.written);
    end := Record(dev, file, bufferSize, recordLen, bits == 24);
  }
}
