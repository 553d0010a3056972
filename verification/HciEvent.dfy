/** Reassembly of HCI events from a serial line that delivers them in arbitrary pieces,
    and the five-step pre-test that runs on it (test_bluetooth.c). */
module HciEvent {
  import opened Bytes
  import opened Streams

  const BUFFER_SIZE := 1024

  /** Packet type, event code, parameter length, parameters. */
  predicate IsEvent(e: seq<Byte>) {
    |e| >= 3 && |e| == 3 + (e[2] as int)
  }

  /** At least one whole event is there. */
  predicate StartsWithEvent(s: seq<Byte>) {
    |s| >= 3 && |s| >= 3 + (s[2] as int)
  }

  function FirstEvent(s: seq<Byte>): (e: seq<Byte>)
    requires StartsWithEvent(s)
    ensures IsEvent(e) && e <= s
  {
    s[..3 + (s[2] as int)]
  }

  function Concat(events: seq<seq<Byte>>): seq<Byte> {
    if events == [] then [] else events[0] + Concat(events[1..])
  }

  /** One of the two loops of read_event: n bytes into the buffer from at on. count is
      what the last read returned, i where it was put. */
  method ReadExactly(fd: InFile, buffer: array<Byte>, at: nat, n: nat) returns (i: nat, count: nat)
    requires at + n <= buffer.Length
    requires fd.NeverFails() && fd.pos + n <= |fd.data|
    modifies fd, buffer
    ensures i + count == at + n
    ensures fd.pos == old(fd.pos) + n
    ensures buffer[at..at + n] == fd.data[old(fd.pos)..fd.pos]
    ensures forall k | 0 <= k < buffer.Length && !(at <= k < at + n) :: buffer[k] == old(buffer[k])
    ensures fd.NeverFails()
  {
    i := at;
    var len := n;
    count := fd.Read(buffer, i, len);
    while count < len
      invariant fd.NeverFails()
      invariant at <= i && count <= len && i + len == at + n
      invariant fd.pos == old(fd.pos) + (i - at) + count
      invariant buffer[at..i + count] == fd.data[old(fd.pos)..fd.pos]
      invariant forall k | 0 <= k < buffer.Length && !(at <= k < i + count) :: buffer[k] == old(buffer[k])
      decreases |fd.plan|, len - count
    {
      ghost var got, from := buffer[at..i + count], fd.pos;
      i := i + count;
      len := len - count;
      count := fd.Read(buffer, i, len);
      assert buffer[at..i] == got;
      assert buffer[at..i + count] == got + buffer[i..i + count];
      assert fd.data[old(fd.pos)..from] + fd.data[from..fd.pos] == fd.data[old(fd.pos)..fd.pos];
    }
  }

  /** For every chunking, exactly one event is consumed and stored, and its size
      returned. The line blocks, so the event's bytes are there to be read. */
  method ReadEvent(fd: InFile, buffer: array<Byte>) returns (count: nat)
    requires buffer.Length == BUFFER_SIZE
    requires fd.NeverFails() && StartsWithEvent(fd.data[fd.pos..])
    modifies fd, buffer
    ensures fd.NeverFails()
    ensures count <= BUFFER_SIZE && buffer[..count] == old(FirstEvent(fd.data[fd.pos..]))
    ensures fd.pos == old(fd.pos) + count <= |fd.data|
    ensures forall k | count <= k < BUFFER_SIZE :: buffer[k] == old(buffer[k])
  {
    ghost var s := fd.data[fd.pos..];
    var i, last := ReadExactly(fd, buffer, 0, 3);
    i := i + last;
    assert buffer[0..3] == s[..3];
    var len: nat := buffer[2];
    assert len == s[..3][2];
    ghost var head := buffer[0..3];
    i, last := ReadExactly(fd, buffer, i, len);
    assert buffer[0..3] == head;
    assert buffer[3..3 + len] == s[3..3 + len];
    assert buffer[..3 + len] == buffer[0..3] + buffer[3..3 + len];
    count := last + i;
  }

  // ---------- framing is unambiguous ----------

  /** The events at the front of a byte stream. */
  function SplitEvents(s: seq<Byte>): seq<seq<Byte>>
    decreases |s|
  {
    if !StartsWithEvent(s) then [] else [FirstEvent(s)] + SplitEvents(s[|FirstEvent(s)|..])
  }

  /** Splitting recovers every concatenation of events frame by frame. */
  lemma {:induction false} SplitConcat(events: seq<seq<Byte>>, tail: seq<Byte>)
    requires (forall e | e in events :: IsEvent(e)) && !StartsWithEvent(tail)
    ensures SplitEvents(Concat(events) + tail) == events
  {
    var s := Concat(events) + tail;
    if events == [] {
      assert s == tail;
    } else {
      assert IsEvent(events[0]);
      assert s == events[0] + (Concat(events[1..]) + tail);
      assert s[2] == events[0][2];
      SplitConcat(events[1..], tail);
    }
  }

  /** read_event once more on the same line: it takes the next event of the stream,
      whatever the chunking. */
  method ReadNext(fd: InFile, buffer: array<Byte>) returns (count: nat)
    requires buffer.Length == BUFFER_SIZE
    requires fd.NeverFails() && SplitEvents(fd.Rest()) != []
    modifies fd, buffer
    ensures fd.NeverFails()
    ensures count <= BUFFER_SIZE
    ensures old(SplitEvents(fd.Rest())) == [buffer[..count]] + SplitEvents(fd.Rest())
  {
    ghost var s := fd.Rest();
    count := ReadEvent(fd, buffer);
    assert fd.Rest() == s[count..];
  }

  // ---------- the pre-test ----------

  const RESET_OK: seq<Byte> := [0x04, 0x0e, 0x04, 0x01, 0x03, 0x0c, 0x00]
  const EVENT_FILTER_OK: seq<Byte> := [0x04, 0x0e, 0x04, 0x01, 0x05, 0x0c, 0x00]
  const SCAN_ENABLE_OK: seq<Byte> := [0x04, 0x0e, 0x04, 0x01, 0x1a, 0x0c, 0x00]
  const TEST_MODE_OK: seq<Byte> := [0x04, 0x0e, 0x04, 0x01, 0x03, 0x18, 0x00]

  /** The answer each of the five steps of main expects, as a predicate on events. */
  predicate StepPasses(step: nat, e: seq<Byte>) {
    match step
    case 0 => e == RESET_OK
    case 1 => |e| == 13 && e[6] == 0
    case 2 => e == EVENT_FILTER_OK
    case 3 => e == SCAN_ENABLE_OK
    case 4 => e == TEST_MODE_OK
    case _ => false
  }

  /** proc_reset, proc_set_event_filter, proc_write_scan_enable and
      proc_enable_device_under_test_mode: true stands for the return value 0. */
  method ProcCommand(fd: InFile, buffer: array<Byte>, expected: seq<Byte>) returns (passed: bool)
    requires buffer.Length == BUFFER_SIZE && |expected| == 7
    requires fd.NeverFails() && SplitEvents(fd.Rest()) != []
    modifies fd, buffer
    ensures fd.NeverFails() && SplitEvents(fd.Rest()) == old(SplitEvents(fd.Rest()))[1..]
    ensures passed <==> old(SplitEvents(fd.Rest()))[0] == expected
  {
    hide SplitEvents;
    var count := ReadNext(fd, buffer);
    if count == 7 {
      return buffer[..count] == expected;
    }
    passed := false;
  }

  method ProcReadBdAddr(fd: InFile, buffer: array<Byte>) returns (passed: bool)
    requires buffer.Length == BUFFER_SIZE
    requires fd.NeverFails() && SplitEvents(fd.Rest()) != []
    modifies fd, buffer
    ensures fd.NeverFails() && SplitEvents(fd.Rest()) == old(SplitEvents(fd.Rest()))[1..]
    ensures passed <==> var e := old(SplitEvents(fd.Rest()))[0]; |e| == 13 && e[6] == 0
  {
    hide SplitEvents;
    var count := ReadNext(fd, buffer);
    if count == 13 {
      assert buffer[..count][6] == buffer[6];
      return buffer[6] == 0;
    }
    passed := false;
  }

  /** The exit code main owes to the first five events: 0 if all are the expected ones,
      otherwise 3 plus the number of the first that is not. */
  function ExitCode(events: seq<seq<Byte>>, step: nat): nat
    requires |events| >= 5 && step <= 5
    decreases 5 - step
  {
    if step == 5 then 0
    else if !StepPasses(step, events[step]) then 3 + step
    else ExitCode(events, step + 1)
  }

  /** Whatever the chunking of the line, main's exit code depends on its events only. */
  method Pretest(fd: InFile, buffer: array<Byte>) returns (exitCode: nat)
    requires buffer.Length == BUFFER_SIZE
    requires fd.NeverFails() && |SplitEvents(fd.Rest())| >= 5
    modifies fd, buffer
    ensures exitCode == ExitCode(old(SplitEvents(fd.Rest())), 0)
  {
    hide SplitEvents;
    ghost var events := SplitEvents(fd.Rest());
    var passed := ProcCommand(fd, buffer, RESET_OK);
    if !passed { return 3; }
    assert ExitCode(events, 0) == ExitCode(events, 1);
    passed := ProcReadBdAddr(fd, buffer);
    if !passed { return 4; }
    assert ExitCode(events, 1) == ExitCode(events, 2);
    passed := ProcCommand(fd, buffer, EVENT_FILTER_OK);
    if !passed { return 5; }
    assert ExitCode(events, 2) == ExitCode(events, 3);
    passed := ProcCommand(fd, buffer, SCAN_ENABLE_OK);
    if !passed { return 6; }
    assert ExitCode(events, 3) == ExitCode(events, 4);
    passed := ProcCommand(fd, buffer, TEST_MODE_OK);
    if !passed { return 7; }
    assert ExitCode(events, 4) == ExitCode(events, 5);
    exitCode := 0;
  }

  /** 0 means that every answer was the expected one; another code names the first step
      whose answer was not. */
  lemma {:induction false} ExitCodeMeaning(events: seq<seq<Byte>>, step: nat)
    requires |events| >= 5 && step <= 5
    ensures ExitCode(events, step) == 0 <==> forall k | step <= k < 5 :: StepPasses(k, events[k])
    ensures ExitCode(events, step) != 0 ==>
              var failed := ExitCode(events, step) - 3;
              && step <= failed < 5 && !StepPasses(failed, events[failed])
              && forall k | step <= k < failed :: StepPasses(k, events[k])
    decreases 5 - step
  {
    if step < 5 {
      ExitCodeMeaning(events, step + 1);
    }
  }

  /** The same with the answers spelled out: main exits with 0 if and only if the five events
      are the command completions of reset, read address (any 13 bytes with status 0), event
      filter, scan enable and test mode, in this order; with 3 to 7 the first that is not. */
  lemma PretestCodes(events: seq<seq<Byte>>)
    requires |events| >= 5
    ensures var reset := events[0] == [0x04, 0x0e, 0x04, 0x01, 0x03, 0x0c, 0x00];
            var address := |events[1]| == 13 && events[1][6] == 0;
            var filter := events[2] == [0x04, 0x0e, 0x04, 0x01, 0x05, 0x0c, 0x00];
            var scan := events[3] == [0x04, 0x0e, 0x04, 0x01, 0x1a, 0x0c, 0x00];
            var test := events[4] == [0x04, 0x0e, 0x04, 0x01, 0x03, 0x18, 0x00];
            ExitCode(events, 0) == if !reset then 3 else if !address then 4 else if !filter then 5
                                   else if !scan then 6 else if !test then 7 else 0
  {
    hide ExitCode;
    ExitStep(events, 0);
    ExitStep(events, 1);
    ExitStep(events, 2);
    ExitStep(events, 3);
    ExitStep(events, 4);
    ExitStep(events, 5);
  }

  lemma ExitStep(events: seq<seq<Byte>>, k: nat)
    requires |events| >= 5 && k <= 5
    ensures ExitCode(events, k)
         == if k == 5 then 0 else if !StepPasses(k, events[k]) then 3 + k else ExitCode(events, k + 1)
  {
  }
}
