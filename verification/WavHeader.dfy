/** The RIFF/WAVE header writer and parser of wav.c. */
module WavHeader {
  import opened Bytes

  const WAV_HEAD_SIZE := 44
  const MAX_WAV_HEAD_SIZE := 256

  type Int32 = x: int | -0x8000_0000 <= x < 0x8000_0000

  function Unsigned(v: Int32): Word32 { if v < 0 then v + WORD32 else v }

  function Signed(v: Word32): Int32 { if v < 0x8000_0000 then v else v - WORD32 }

  const RIFF: seq<Byte> := [0x52, 0x49, 0x46, 0x46]
  const WAVE: seq<Byte> := [0x57, 0x41, 0x56, 0x45]
  const JUNK: seq<Byte> := [0x4A, 0x55, 0x4E, 0x4B]
  const FMT: seq<Byte> := [0x66, 0x6D, 0x74, 0x20]
  const FACT: seq<Byte> := [0x66, 0x61, 0x63, 0x74]
  const DATA: seq<Byte> := [0x64, 0x61, 0x74, 0x61]

  /** channels * bits / 8 in unsigned arithmetic, stored in 16 bits. */
  function BlockAlign(channels: Word32, bits: Word32): Word16 {
    Low16(channels * bits % WORD32 / 8)
  }

  function BytesPerSecond(channels: Word32, rate: Word32, bits: Word32): Word32 {
    rate * BlockAlign(channels, bits) % WORD32
  }

  /** The fields of a format chunk as they stand in the file. */
  function FormatFields(channels: seq<Byte>, rate: seq<Byte>, bps: seq<Byte>, align: seq<Byte>, bits: seq<Byte>)
    : (f: seq<Byte>)
    requires |channels| == |align| == |bits| == 2 && |rate| == |bps| == 4
    ensures |f| == 16
  {
    [1, 0] + channels + rate + bps + align + bits
  }

  /** A RIFF/WAVE file head: an optional JUNK chunk, a format chunk with extra bytes, an
      optional 12-byte fact chunk, and the head of the data chunk. */
  function Head(riffLength: seq<Byte>, junk: seq<Byte>, format: seq<Byte>, fact: seq<Byte>, dataLength: seq<Byte>)
    : seq<Byte>
  {
    RIFF + riffLength + WAVE + junk + format + fact + DATA + dataLength
  }

  function JunkChunk(body: seq<Byte>): seq<Byte>
    requires |body| + 8 < WORD32
  {
    JUNK + Le32(|body|) + body
  }

  function FormatChunk(fields: seq<Byte>, extra: seq<Byte>): seq<Byte>
    requires |fields| == 16 && 24 + |extra| < WORD32
  {
    FMT + Le32(16 + |extra|) + fields + extra
  }

  function WrittenHeader(dataLen: Int32, channels: Word32, rate: Word32, bits: Word32): (h: seq<Byte>)
    ensures |h| == WAV_HEAD_SIZE
  {
    Head(Le32(Wrap32(Unsigned(dataLen) + 36)), [],
         FormatChunk(FormatFields(Le16(Low16(channels)), Le32(rate), Le32(BytesPerSecond(channels, rate, bits)),
                                  Le16(BlockAlign(channels, bits)), Le16(Low16(bits))), []),
         [], Le32(Unsigned(dataLen)))
  }

  // ---------- the writer ----------

  method StoreFormat(data: array<Byte>, at: nat, length: seq<Byte>, channels: seq<Byte>, rate: seq<Byte>,
                     bps: seq<Byte>, align: seq<Byte>, bits: seq<Byte>)
    requires at + 24 <= data.Length
    requires |channels| == |align| == |bits| == 2 && |length| == |rate| == |bps| == 4
    modifies data
    ensures data[at..at + 24] == FMT + length + FormatFields(channels, rate, bps, align, bits)
    ensures forall i | 0 <= i < data.Length && !(at <= i < at + 24) :: data[i] == old(data[i])
  {
    StoreNext(data, at, at, [], FMT);
    StoreNext(data, at, at + 4, FMT, length);
    StoreNext(data, at, at + 8, FMT + length, [1, 0]);
    StoreNext(data, at, at + 10, FMT + length + [1, 0], channels);
    StoreNext(data, at, at + 12, FMT + length + [1, 0] + channels, rate);
    StoreNext(data, at, at + 16, FMT + length + [1, 0] + channels + rate, bps);
    StoreNext(data, at, at + 20, FMT + length + [1, 0] + channels + rate + bps, align);
    StoreNext(data, at, at + 22, FMT + length + [1, 0] + channels + rate + bps + align, bits);
    assert FMT + length + FormatFields(channels, rate, bps, align, bits)
        == FMT + length + [1, 0] + channels + rate + bps + align + bits;
  }

  /** One more field right after those stored from at on. */
  method StoreNext(data: array<Byte>, ghost at: nat, p: nat, ghost front: seq<Byte>, s: seq<Byte>)
    requires at <= p && p + |s| <= data.Length && data[at..p] == front
    modifies data
    ensures data[at..p + |s|] == front + s
    ensures forall i | 0 <= i < data.Length && !(p <= i < p + |s|) :: data[i] == old(data[i])
  {
    StoreBytes(data, p, s);
    assert data[at..p] == old(data[at..p]);
    assert data[at..p + |s|] == data[at..p] + data[p..p + |s|];
  }

  method StoreHead(data: array<Byte>, total: seq<Byte>, ghost format: seq<Byte>, length: seq<Byte>)
    requires data.Length >= WAV_HEAD_SIZE && |total| == |length| == 4 && |format| == 24
    requires data[12..36] == format
    modifies data
    ensures data[..WAV_HEAD_SIZE] == Head(total, [], format, [], length)
    ensures data[WAV_HEAD_SIZE..] == old(data[WAV_HEAD_SIZE..])
  {
    ghost var front := RIFF + total + WAVE;
    StoreNext(data, 0, 0, [], RIFF);
    StoreNext(data, 0, 4, RIFF, total);
    StoreNext(data, 0, 8, RIFF + total, WAVE);
    assert data[0..36] == front + format by {
      assert data[0..12] == front && data[12..36] == format;
      assert data[0..36] == data[0..12] + data[12..36];
    }
    StoreNext(data, 0, 36, front + format, DATA);
    StoreNext(data, 0, 40, front + format + DATA, length);
    assert data[..WAV_HEAD_SIZE] == data[0..WAV_HEAD_SIZE];
    HeadOf(total, format, length);
  }

  lemma HeadOf(total: seq<Byte>, format: seq<Byte>, length: seq<Byte>)
    ensures Head(total, [], format, [], length) == (RIFF + total + WAVE) + format + DATA + length
  {
    assert (RIFF + total + WAVE) + [] + format + [] == (RIFF + total + WAVE) + format;
  }

  method InitWavHeader(data: array<Byte>, dataLen: Int32, channels: Word32, rate: Word32, bits: Word32)
    requires data.Length >= WAV_HEAD_SIZE
    modifies data
    ensures data[..WAV_HEAD_SIZE] == WrittenHeader(dataLen, channels, rate, bits)
    ensures data[WAV_HEAD_SIZE..] == old(data[WAV_HEAD_SIZE..])
  {
    var align, bps := BlockAlign(channels, bits), BytesPerSecond(channels, rate, bits);
    StoreFormat(data, 12, Le32(16), Le16(Low16(channels)), Le32(rate), Le32(bps), Le16(align), Le16(Low16(bits)));
    ghost var format := data[12..36];
    assert format + [] == format;
    StoreHead(data, Le32(Wrap32(Unsigned(dataLen) + 36)), format, Le32(Unsigned(dataLen)));
  }

  // ---------- the parser ----------

  /** Comparing a four-letter tag byte by byte, stopping at the first difference. */
  datatype Match = Yes | No | Beyond

  function TagAt(s: seq<Byte>, p: nat, tag: seq<Byte>): Match
    decreases |tag|
  {
    if tag == [] then Yes
    else if p >= |s| then Beyond
    else if s[p] != tag[0] then No
    else TagAt(s, p + 1, tag[1..])
  }

  /** NotWav is the return value 0 on a mismatch; OutOfBounds means that the chunk lengths
      lead the parser outside the buffer, which C leaves undefined. A data length of 0
      also returns 0, see DataLength. */
  datatype Parsed =
    | NotWav
    | OutOfBounds
    | Header(headLen: nat, channels: Word16, rate: Word32, bits: Word16, dataLen: Int32)

  function SkipJunk(s: seq<Byte>, p: nat): (q: int)
    ensures q == -1 || p <= q
  {
    match TagAt(s, p, JUNK)
    case No => p
    case Beyond => -1
    case Yes => if p + 8 <= |s| then p + Wrap32(FromLe32(s[p + 4..p + 8]) + 8) else -1
  }

  function ParseData(s: seq<Byte>, p: nat, channels: Word16, rate: Word32, bits: Word16): Parsed {
    match TagAt(s, p, DATA)
    case No => NotWav
    case Beyond => OutOfBounds
    case Yes =>
      if p + 8 <= |s| then Header(p + 8, channels, rate, bits, Signed(FromLe32(s[p + 4..p + 8])))
      else OutOfBounds
  }

  function ParseFormat(s: seq<Byte>, p: nat): Parsed {
    match TagAt(s, p, FMT)
    case No => NotWav
    case Beyond => OutOfBounds
    case Yes =>
      if p + 10 > |s| then OutOfBounds
      else if FromLe16(s[p + 8..p + 10]) != 1 then NotWav
      else if p + 24 > |s| then OutOfBounds
      else ParseFields(s, p)
  }

  function ParseFields(s: seq<Byte>, p: nat): Parsed
    requires p + 24 <= |s|
  {
    var q := p + Wrap32(FromLe32(s[p + 4..p + 8]) + 8);
    var channels, rate := FromLe16(s[p + 10..p + 12]), FromLe32(s[p + 12..p + 16]);
    var bits := FromLe16(s[p + 22..p + 24]);
    match TagAt(s, q, FACT)
    case Beyond => OutOfBounds
    case No => ParseData(s, q, channels, rate, bits)
    case Yes => ParseData(s, q + 12, channels, rate, bits)
  }

  /** parse_wav_header on a buffer. */
  function Parse(s: seq<Byte>): Parsed {
    match TagAt(s, 0, RIFF)
    case No => NotWav
    case Beyond => OutOfBounds
    case Yes =>
      match TagAt(s, 8, WAVE)
      case No => NotWav
      case Beyond => OutOfBounds
      case Yes =>
        var p := SkipJunk(s, 12);
        if p == -1 then OutOfBounds else ParseFormat(s, p)
  }

  /** The value parse_wav_header returns. */
  function DataLength(r: Parsed): Int32 {
    if r.Header? then r.dataLen else 0
  }

  method ParseWavHeader(data: array<Byte>) returns (r: Parsed)
    ensures r == Parse(data[..])
  {
    ghost var s := data[..];
    var riff := TagAt(data[..], 0, RIFF);
    if riff != Yes {
      return if riff == No then NotWav else OutOfBounds;
    }
    var wave := TagAt(data[..], 8, WAVE);
    if wave != Yes {
      return if wave == No then NotWav else OutOfBounds;
    }
    var p := 12;
    var junk := TagAt(data[..], p, JUNK);
    if junk == Beyond { return OutOfBounds; }
    if junk == Yes {
      if p + 8 > data.Length { return OutOfBounds; }
      assert s[p + 4..p + 8] == data[p + 4..p + 8];
      p := p + Wrap32(FromLe32(data[p + 4..p + 8]) + 8);
    }
    assert p == SkipJunk(s, 12);
    r := ParseFromFormat(data, p);
  }

  method ParseFromFormat(data: array<Byte>, at: nat) returns (r: Parsed)
    ensures r == ParseFormat(data[..], at)
  {
    ghost var s := data[..];
    var p := at;
    var fmt := TagAt(data[..], p, FMT);
    if fmt != Yes {
      return if fmt == No then NotWav else OutOfBounds;
    }
    if p + 10 > data.Length { return OutOfBounds; }
    assert s[p + 8..p + 10] == data[p + 8..p + 10];
    if FromLe16(data[p + 8..p + 10]) != 1 { return NotWav; }
    if p + 24 > data.Length { return OutOfBounds; }
    assert s[p + 4..p + 8] == data[p + 4..p + 8] && s[p + 10..p + 12] == data[p + 10..p + 12];
    assert s[p + 12..p + 16] == data[p + 12..p + 16] && s[p + 22..p + 24] == data[p + 22..p + 24];
    var channels, rate := FromLe16(data[p + 10..p + 12]), FromLe32(data[p + 12..p + 16]);
    var bits := FromLe16(data[p + 22..p + 24]);
    p := p + Wrap32(FromLe32(data[p + 4..p + 8]) + 8);
    var fact := TagAt(data[..], p, FACT);
    if fact == Beyond { return OutOfBounds; }
    if fact == Yes {
      p := p + 12;
    }
    r := ParseFromData(data, p, channels, rate, bits);
  }

  method ParseFromData(data: array<Byte>, p: nat, channels: Word16, rate: Word32, bits: Word16) returns (r: Parsed)
    ensures r == ParseData(data[..], p, channels, rate, bits)
  {
    var tag := TagAt(data[..], p, DATA);
    if tag != Yes {
      return if tag == No then NotWav else OutOfBounds;
    }
    if p + 8 > data.Length { return OutOfBounds; }
    assert data[..][p + 4..p + 8] == data[p + 4..p + 8];
    r := Header(p + 8, channels, rate, bits, Signed(FromLe32(data[p + 4..p + 8])));
  }

  // ---------- what the parser reads from any legal layout ----------

  lemma {:induction false} TagFound(s: seq<Byte>, p: nat, tag: seq<Byte>)
    requires p + |tag| <= |s| && s[p..p + |tag|] == tag
    ensures TagAt(s, p, tag) == Yes
    decreases |tag|
  {
    if tag != [] {
      assert s[p] == tag[0];
      assert s[p + 1..p + 1 + |tag[1..]|] == tag[1..];
      TagFound(s, p + 1, tag[1..]);
    }
  }

  lemma OtherTag(s: seq<Byte>, p: nat, tag: seq<Byte>, other: seq<Byte>)
    requires |tag| == 4 && p + 4 <= |s| && s[p..p + 4] == tag
    requires |other| == 4 && (other[0] != tag[0] || (other[0] == tag[0] && other[1] != tag[1]))
    ensures TagAt(s, p, other) == No
  {
    assert s[p] == tag[0] && s[p + 1] == tag[1];
    assert other[1..][0] == other[1];
  }

  lemma DataParses(s: seq<Byte>, front: seq<Byte>, length: seq<Byte>, rest: seq<Byte>,
                   channels: Word16, rate: Word32, bits: Word16)
    requires |length| == 4 && s == front + (DATA + length + rest)
    ensures ParseData(s, |front|, channels, rate, bits)
         == Header(|front| + 8, channels, rate, bits, Signed(FromLe32(length)))
    ensures TagAt(s, |front|, FACT) == No
  {
    var p := |front|;
    assert s[p..p + 4] == DATA && s[p + 4..p + 8] == length;
    TagFound(s, p, DATA);
    OtherTag(s, p, DATA, FACT);
  }

  lemma FactParses(s: seq<Byte>, front: seq<Byte>, fact: seq<Byte>, length: seq<Byte>, rest: seq<Byte>,
                   channels: Word16, rate: Word32, bits: Word16)
    requires |length| == 4 && s == front + (fact + (DATA + length + rest))
    requires fact == [] || (|fact| == 12 && fact[..4] == FACT)
    ensures TagAt(s, |front|, FACT) == if fact == [] then No else Yes
    ensures ParseData(s, |front| + |fact|, channels, rate, bits)
         == Header(|front| + |fact| + 8, channels, rate, bits, Signed(FromLe32(length)))
  {
    var all := front + fact;
    assert s == all + (DATA + length + rest);
    DataParses(s, all, length, rest, channels, rate, bits);
    if fact == [] {
      assert all == front;
    } else {
      assert s[|front|..|front| + 4] == FACT;
      TagFound(s, |front|, FACT);
    }
  }

  lemma FormatParses(s: seq<Byte>, front: seq<Byte>, fields: seq<Byte>, extra: seq<Byte>,
                     fact: seq<Byte>, length: seq<Byte>, rest: seq<Byte>)
    requires |fields| == 16 && fields[..2] == [1, 0] && 24 + |extra| < WORD32
    requires |length| == 4
    requires fact == [] || (|fact| == 12 && fact[..4] == FACT)
    requires s == front + FormatChunk(fields, extra) + (fact + (DATA + length + rest))
    ensures ParseFormat(s, |front|)
         == Header(|front| + 24 + |extra| + |fact| + 8, FromLe16(fields[2..4]), FromLe32(fields[4..8]),
                   FromLe16(fields[14..16]), Signed(FromLe32(length)))
    ensures TagAt(s, |front|, JUNK) == No
  {
    hide TagAt, ParseData, Signed;
    FormatSlices(s, front, fields, extra, fact + (DATA + length + rest));
    TagFound(s, |front|, FMT);
    OtherTag(s, |front|, FMT, JUNK);
    FactParses(s, front + FormatChunk(fields, extra), fact, length, rest,
               FromLe16(fields[2..4]), FromLe32(fields[4..8]), FromLe16(fields[14..16]));
  }

  lemma FormatSlices(s: seq<Byte>, front: seq<Byte>, fields: seq<Byte>, extra: seq<Byte>, back: seq<Byte>)
    requires |fields| == 16 && 24 + |extra| < WORD32
    requires s == front + FormatChunk(fields, extra) + back
    ensures var p := |front|;
            && p + 24 <= |s|
            && s[p..p + 4] == FMT && s[p + 4..p + 8] == Le32(16 + |extra|)
            && s[p + 8..p + 10] == fields[..2] && s[p + 10..p + 12] == fields[2..4]
            && s[p + 12..p + 16] == fields[4..8] && s[p + 22..p + 24] == fields[14..16]
  {
    var p, chunk := |front|, FormatChunk(fields, extra);
    assert chunk[..4] == FMT && chunk[4..8] == Le32(16 + |extra|) && chunk[8..24] == fields;
    assert s[p..p + 24] == chunk[..24];
    assert s[p + 8..p + 24] == fields;
  }

  /** For every legal head (JUNK or not, format chunk with or without extra bytes, fact or
      not) followed by anything, the parser returns the fields and the head length. */
  lemma HeadParses(riffLength: seq<Byte>, junk: seq<Byte>, hasJunk: bool, fields: seq<Byte>, extra: seq<Byte>,
                   fact: seq<Byte>, length: seq<Byte>, rest: seq<Byte>)
    requires |riffLength| == |length| == 4
    requires |fields| == 16 && fields[..2] == [1, 0] && 24 + |extra| < WORD32
    requires |junk| + 8 < WORD32
    requires fact == [] || (|fact| == 12 && fact[..4] == FACT)
    ensures var head := Head(riffLength, if hasJunk then JunkChunk(junk) else [],
                             FormatChunk(fields, extra), fact, length);
            Parse(head + rest)
            == Header(|head|, FromLe16(fields[2..4]), FromLe32(fields[4..8]), FromLe16(fields[14..16]),
                      Signed(FromLe32(length)))
  {
    hide TagAt, ParseFormat, Wrap32, Signed, FromLe16, FromLe32, Le32;
    var j := if hasJunk then JunkChunk(junk) else [];
    var format := FormatChunk(fields, extra);
    var head := Head(riffLength, j, format, fact, length);
    HeadPieces(riffLength, j, format, fact, length, rest);
    var front, back := RIFF + riffLength + WAVE, fact + (DATA + length + rest);
    FrontParses(head + rest, riffLength, j + format + back);
    JunkPieces(head + rest, front, j, format, back);
    if hasJunk {
      JunkParses(head + rest, front, junk, format + back);
      FormatParses(head + rest, front + j, fields, extra, fact, length, rest);
    } else {
      FormatParses(head + rest, front, fields, extra, fact, length, rest);
    }
  }

  lemma HeadPieces(riffLength: seq<Byte>, j: seq<Byte>, format: seq<Byte>, fact: seq<Byte>, length: seq<Byte>,
                   rest: seq<Byte>)
    ensures Head(riffLength, j, format, fact, length) + rest
         == (RIFF + riffLength + WAVE) + (j + format + (fact + (DATA + length + rest)))
  {
  }

  lemma JunkPieces(s: seq<Byte>, front: seq<Byte>, j: seq<Byte>, format: seq<Byte>, back: seq<Byte>)
    requires s == front + (j + format + back)
    ensures s == (front + j) + format + back && s == front + j + (format + back)
    ensures j == [] ==> front + j == front
  {
  }

  lemma FrontParses(s: seq<Byte>, riffLength: seq<Byte>, rest: seq<Byte>)
    requires |riffLength| == 4
    requires s == (RIFF + riffLength + WAVE) + rest
    ensures TagAt(s, 0, RIFF) == Yes && TagAt(s, 8, WAVE) == Yes
  {
    assert s[0..4] == RIFF && s[8..12] == WAVE;
    TagFound(s, 0, RIFF);
    TagFound(s, 8, WAVE);
  }

  lemma JunkParses(s: seq<Byte>, front: seq<Byte>, junk: seq<Byte>, rest: seq<Byte>)
    requires |junk| + 8 < WORD32
    requires s == front + JunkChunk(junk) + rest
    ensures SkipJunk(s, |front|) == |front| + |JunkChunk(junk)|
  {
    var p, j := |front|, JunkChunk(junk);
    assert j[..4] == JUNK && j[4..8] == Le32(|junk|);
    assert s[p..p + 4] == JUNK && s[p + 4..p + 8] == Le32(|junk|);
    TagFound(s, p, JUNK);
  }

  // ---------- everything the parser accepts ----------

  predicate TagIs(s: seq<Byte>, p: nat, tag: seq<Byte>) {
    p + |tag| <= |s| && s[p..p + |tag|] == tag
  }

  lemma {:induction false} TagExact(s: seq<Byte>, p: nat, tag: seq<Byte>)
    requires tag != [] || p <= |s|
    ensures TagAt(s, p, tag) == Yes <==> TagIs(s, p, tag)
    decreases |tag|
  {
    if tag != [] && p < |s| {
      TagExact(s, p + 1, tag[1..]);
      if p + |tag| <= |s| {
        assert s[p..p + |tag|] == [s[p]] + s[p + 1..p + |tag|];
        assert tag == [tag[0]] + tag[1..];
        assert s[p + 1..p + 1 + |tag[1..]|] == s[p + 1..p + |tag|] == s[p..p + |tag|][1..];
        assert s[p] == s[p..p + |tag|][0];
      }
    }
  }

  /** Where the data chunk is looked for, after the format chunk at p. */
  function DataAt(s: seq<Byte>, p: nat): nat
    requires p + 24 <= |s|
  {
    var q := p + Wrap32(FromLe32(s[p + 4..p + 8]) + 8);
    if TagIs(s, q, FACT) then q + 12 else q
  }

  /** A format chunk at p, a data chunk at e: p follows the RIFF head or a JUNK chunk, e the
      format chunk or a 12-byte fact chunk. Lengths are believed modulo 2^32, so the format
      chunk may be shorter than its fields and a JUNK chunk may end where it likes. */
  predicate HeadAt(s: seq<Byte>, p: nat, e: nat) {
    && TagIs(s, 0, RIFF) && TagIs(s, 8, WAVE)
    && (if TagIs(s, 12, JUNK) then |s| >= 20 && p == 12 + Wrap32(FromLe32(s[16..20]) + 8) else p == 12)
    && TagIs(s, p, FMT) && p + 24 <= |s| && FromLe16(s[p + 8..p + 10]) == 1
    && e == DataAt(s, p) && TagIs(s, e, DATA) && e + 8 <= |s|
  }

  function HeaderAt(s: seq<Byte>, p: nat, e: nat): Parsed
    requires HeadAt(s, p, e)
  {
    Header(e + 8, FromLe16(s[p + 10..p + 12]), FromLe32(s[p + 12..p + 16]), FromLe16(s[p + 22..p + 24]),
           Signed(FromLe32(s[e + 4..e + 8])))
  }

  lemma DataExact(s: seq<Byte>, e: nat, channels: Word16, rate: Word32, bits: Word16)
    ensures TagIs(s, e, DATA) && e + 8 <= |s| ==>
              ParseData(s, e, channels, rate, bits)
              == Header(e + 8, channels, rate, bits, Signed(FromLe32(s[e + 4..e + 8])))
    ensures ParseData(s, e, channels, rate, bits).Header? <==> TagIs(s, e, DATA) && e + 8 <= |s|
  {
    TagExact(s, e, DATA);
  }

  lemma FieldsExact(s: seq<Byte>, p: nat)
    requires p + 24 <= |s|
    ensures var e := DataAt(s, p);
            && (ParseFields(s, p).Header? <==> TagIs(s, e, DATA) && e + 8 <= |s|)
            && (ParseFields(s, p).Header? ==>
                  ParseFields(s, p)
                  == Header(e + 8, FromLe16(s[p + 10..p + 12]), FromLe32(s[p + 12..p + 16]),
                            FromLe16(s[p + 22..p + 24]), Signed(FromLe32(s[e + 4..e + 8]))))
  {
    hide ParseData, TagAt, Signed;
    var q := p + Wrap32(FromLe32(s[p + 4..p + 8]) + 8);
    TagExact(s, q, FACT);
    DataExact(s, DataAt(s, p), FromLe16(s[p + 10..p + 12]), FromLe32(s[p + 12..p + 16]), FromLe16(s[p + 22..p + 24]));
    if TagIs(s, q, DATA) {
      OtherTag(s, q, DATA, FACT);
    }
  }

  lemma FormatExact(s: seq<Byte>, p: nat)
    ensures ParseFormat(s, p).Header?
       <==> TagIs(s, p, FMT) && p + 24 <= |s| && FromLe16(s[p + 8..p + 10]) == 1 && ParseFields(s, p).Header?
    ensures ParseFormat(s, p).Header? ==> ParseFormat(s, p) == ParseFields(s, p)
  {
    hide ParseFields;
    TagExact(s, p, FMT);
  }

  /** Where the format chunk is looked for, or -1. */
  lemma JunkExact(s: seq<Byte>)
    ensures TagIs(s, 12, JUNK) ==>
              SkipJunk(s, 12) == if |s| >= 20 then 12 + Wrap32(FromLe32(s[16..20]) + 8) else -1
    ensures !TagIs(s, 12, JUNK) ==> SkipJunk(s, 12) == 12 || SkipJunk(s, 12) == -1
    ensures TagIs(s, 12, FMT) ==> SkipJunk(s, 12) == 12
  {
    TagExact(s, 12, JUNK);
    if TagIs(s, 12, FMT) {
      OtherTag(s, 12, FMT, JUNK);
    }
  }

  /** The parser accepts exactly the buffers laid out like that, and returns their fields. */
  lemma ParseExact(s: seq<Byte>, r: Parsed)
    requires r.Header?
    ensures Parse(s) == r <==> exists p: nat, e: nat :: HeadAt(s, p, e) && r == HeaderAt(s, p, e)
  {
    hide ParseFormat, ParseFields, TagAt, SkipJunk, DataAt, Signed, FromLe32, FromLe16, Wrap32;
    TagExact(s, 0, RIFF);
    TagExact(s, 8, WAVE);
    JunkExact(s);
    if Parse(s) == r {
      var p: nat := SkipJunk(s, 12);
      FormatExact(s, p);
      FieldsExact(s, p);
      assert HeadAt(s, p, DataAt(s, p)) && r == HeaderAt(s, p, DataAt(s, p));
    }
    forall p: nat, e: nat | HeadAt(s, p, e)
      ensures Parse(s) == HeaderAt(s, p, e)
    {
      FormatExact(s, p);
      FieldsExact(s, p);
    }
  }

  lemma Le16Inverse(v: Word16)
    ensures FromLe16(Le16(v)) == v
  {
  }

  lemma SignedInverse(v: Int32)
    ensures Signed(Unsigned(v)) == v
  {
  }

  /** The 44 bytes as numbers: RIFF length 36 + data length, a 16-byte PCM format chunk with
      block align channels * bits / 8 and byte rate rate * block align, all cut to the width
      of their fields. */
  lemma WrittenFields(dataLen: Int32, channels: Word32, rate: Word32, bits: Word32)
    ensures var h := WrittenHeader(dataLen, channels, rate, bits);
            var align := channels * bits % 0x1_0000_0000 / 8 % 0x1_0000;
            var length := if dataLen < 0 then dataLen + 0x1_0000_0000 else dataLen;
            && h[..4] == [0x52, 0x49, 0x46, 0x46] && h[8..16] == [0x57, 0x41, 0x56, 0x45, 0x66, 0x6D, 0x74, 0x20]
            && FromLe32(h[4..8]) == (length + 36) % 0x1_0000_0000
            && FromLe32(h[16..20]) == 16 && h[20..22] == [1, 0]
            && FromLe16(h[22..24]) == channels % 0x1_0000 && FromLe32(h[24..28]) == rate
            && FromLe32(h[28..32]) == rate * align % 0x1_0000_0000
            && FromLe16(h[32..34]) == align && FromLe16(h[34..36]) == bits % 0x1_0000
            && h[36..40] == [0x64, 0x61, 0x74, 0x61] && FromLe32(h[40..44]) == length
  {
    var c, b, a := Le16(Low16(channels)), Le16(Low16(bits)), Le16(BlockAlign(channels, bits));
    var s, riff := Le32(BytesPerSecond(channels, rate, bits)), Wrap32(Unsigned(dataLen) + 36);
    Le16Inverse(Low16(channels));
    Le16Inverse(Low16(bits));
    Le16Inverse(BlockAlign(channels, bits));
    Wrap32IsMod(Unsigned(dataLen) + 36);
    WrittenPieces(Le32(riff), c, Le32(rate), s, a, b, Le32(Unsigned(dataLen)));
    hide Le32, Le16, FromLe16, FromLe32, Wrap32, Head, FormatChunk, FormatFields;
  }

  lemma FormatPieces(c: seq<Byte>, r: seq<Byte>, s: seq<Byte>, a: seq<Byte>, b: seq<Byte>)
    requires |r| == |s| == 4 && |c| == |a| == |b| == 2
    ensures var f := FormatChunk(FormatFields(c, r, s, a, b), []);
            && |f| == 24 && f[0..4] == FMT && f[4..8] == Le32(16) && f[8..10] == [1, 0] && f[10..12] == c
            && f[12..16] == r && f[16..20] == s && f[20..22] == a && f[22..24] == b
  {
    hide Le32;
  }

  lemma WrittenPieces(riff: seq<Byte>, c: seq<Byte>, r: seq<Byte>, s: seq<Byte>, a: seq<Byte>, b: seq<Byte>,
                      length: seq<Byte>)
    requires |riff| == |r| == |s| == |length| == 4 && |c| == |a| == |b| == 2
    ensures var h := Head(riff, [], FormatChunk(FormatFields(c, r, s, a, b), []), [], length);
            && |h| == 44 && h[..4] == RIFF && h[4..8] == riff && h[8..16] == WAVE + FMT && h[16..20] == Le32(16)
            && h[20..22] == [1, 0] && h[22..24] == c && h[24..28] == r && h[28..32] == s && h[32..34] == a
            && h[34..36] == b && h[36..40] == DATA && h[40..44] == length
  {
    hide Le32, FormatChunk, FormatFields;
    var f := FormatChunk(FormatFields(c, r, s, a, b), []);
    FormatPieces(c, r, s, a, b);
    var h := Head(riff, [], f, [], length);
    assert h[..12] == RIFF + riff + WAVE && h[12..36] == f && h[36..44] == DATA + length;
    Window(h, 12, 36, 0, 4);
    Window(h, 12, 36, 4, 8);
    Window(h, 12, 36, 8, 10);
    Window(h, 12, 36, 10, 12);
    Window(h, 12, 36, 12, 16);
    Window(h, 12, 36, 16, 20);
    Window(h, 12, 36, 20, 22);
    Window(h, 12, 36, 22, 24);
    Window(h, 0, 12, 8, 12);
    Join(h, 8, 12, 16);
  }

  /** Parsing what was written, followed by anything, returns the arguments of the writer
      (channels and bits cut to the 16 bits of their fields) and a head length of 44. */
  lemma WrittenHeaderParses(dataLen: Int32, channels: Word32, rate: Word32, bits: Word32, rest: seq<Byte>)
    ensures Parse(WrittenHeader(dataLen, channels, rate, bits) + rest)
         == Header(WAV_HEAD_SIZE, Low16(channels), rate, Low16(bits), dataLen)
  {
    var c, b, r := Le16(Low16(channels)), Le16(Low16(bits)), Le32(rate);
    var fields := FormatFields(c, r, Le32(BytesPerSecond(channels, rate, bits)), Le16(BlockAlign(channels, bits)), b);
    assert fields[..2] == [1, 0] && fields[2..4] == c && fields[4..8] == r && fields[14..16] == b;
    HeadParses(Le32(Wrap32(Unsigned(dataLen) + 36)), [], false, fields, [], [], Le32(Unsigned(dataLen)), rest);
    Le16Inverse(Low16(channels));
    Le16Inverse(Low16(bits));
    SignedInverse(dataLen);
  }

  lemma {:induction false} TagMonotone(a: seq<Byte>, b: seq<Byte>, p: nat, tag: seq<Byte>)
    requires TagAt(a, p, tag) != Beyond
    ensures TagAt(a + b, p, tag) == TagAt(a, p, tag)
    decreases |tag|
  {
    if tag != [] && p < |a| && a[p] == tag[0] {
      TagMonotone(a, b, p + 1, tag[1..]);
    }
  }

  /** A verdict reached inside a buffer does not depend on what follows it. */
  lemma ParseMonotone(a: seq<Byte>, b: seq<Byte>)
    requires Parse(a) != OutOfBounds
    ensures Parse(a + b) == Parse(a)
  {
    TagMonotone(a, b, 0, RIFF);
    if TagAt(a, 0, RIFF) == Yes {
      TagMonotone(a, b, 8, WAVE);
      if TagAt(a, 8, WAVE) == Yes {
        JunkMonotone(a, b, 12);
        FormatMonotone(a, b, SkipJunk(a, 12));
      }
    }
  }

  lemma JunkMonotone(a: seq<Byte>, b: seq<Byte>, p: nat)
    requires SkipJunk(a, p) != -1
    ensures SkipJunk(a + b, p) == SkipJunk(a, p)
  {
    TagMonotone(a, b, p, JUNK);
    if p + 8 <= |a| {
      assert (a + b)[p + 4..p + 8] == a[p + 4..p + 8];
    }
  }

  lemma FormatMonotone(a: seq<Byte>, b: seq<Byte>, p: nat)
    requires ParseFormat(a, p) != OutOfBounds
    ensures ParseFormat(a + b, p) == ParseFormat(a, p)
  {
    hide TagAt, ParseFields, FromLe16;
    TagMonotone(a, b, p, FMT);
    if TagAt(a, p, FMT) == Yes {
      assert (a + b)[p + 8..p + 10] == a[p + 8..p + 10];
      if FromLe16(a[p + 8..p + 10]) == 1 {
        ParseFieldsMonotone(a, b, p);
      }
    }
  }

  lemma ParseFieldsMonotone(a: seq<Byte>, b: seq<Byte>, p: nat)
    requires p + 24 <= |a| && ParseFields(a, p) != OutOfBounds
    ensures ParseFields(a + b, p) == ParseFields(a, p)
  {
    hide TagAt, ParseData, Wrap32, FromLe32, FromLe16;
    FieldsMonotone(a, b, p);
    var q := p + Wrap32(FromLe32(a[p + 4..p + 8]) + 8);
    TagMonotone(a, b, q, FACT);
    DataMonotone(a, b, if TagAt(a, q, FACT) == Yes then q + 12 else q,
                 FromLe16(a[p + 10..p + 12]), FromLe32(a[p + 12..p + 16]), FromLe16(a[p + 22..p + 24]));
  }

  lemma DataMonotone(a: seq<Byte>, b: seq<Byte>, p: nat, channels: Word16, rate: Word32, bits: Word16)
    requires ParseData(a, p, channels, rate, bits) != OutOfBounds
    ensures ParseData(a + b, p, channels, rate, bits) == ParseData(a, p, channels, rate, bits)
  {
    TagMonotone(a, b, p, DATA);
    if p + 8 <= |a| {
      assert (a + b)[p + 4..p + 8] == a[p + 4..p + 8];
    }
  }

  lemma FieldsMonotone(a: seq<Byte>, b: seq<Byte>, p: nat)
    requires p + 24 <= |a|
    ensures (a + b)[p + 4..p + 8] == a[p + 4..p + 8] && (a + b)[p + 10..p + 12] == a[p + 10..p + 12]
    ensures (a + b)[p + 12..p + 16] == a[p + 12..p + 16] && (a + b)[p + 22..p + 24] == a[p + 22..p + 24]
  {
  }
}
