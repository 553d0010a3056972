/** Descriptors with scheduled short reads and writes. */
module Streams {
  import opened Bytes

  function Min(a: int, b: int): int { if a <= b then a else b }

  // ---------- schedules ----------

  /** What read() or write() returns for n bytes when avail are there: a negative entry of
      the schedule is an error, another one bounds the number of bytes; past the schedule
      calls are full. */
  function Count(plan: seq<int>, n: nat, avail: nat): (c: int)
    ensures -1 <= c <= n && c <= avail
  {
    var most := Min(n, avail);
    if plan == [] then most else if plan[0] < 0 then -1 else Min(plan[0], most)
  }

  /** The schedule of the calls after the next one. */
  function Next(plan: seq<int>): seq<int> {
    if plan == [] then [] else plan[1..]
  }

  predicate NoErrors(plan: seq<int>) { forall n | n in plan :: n >= 0 }

  /** No error, and no call that moves nothing. */
  predicate Moving(plan: seq<int>) { forall n | n in plan :: n > 0 }

  /** One of the calls made while plan was used up to its suffix rest was an error. */
  predicate ErrorMet(plan: seq<int>, rest: seq<int>) {
    exists k :: 0 <= k < |plan| - |rest| && plan[k] < 0
  }

  predicate Suffix(rest: seq<int>, plan: seq<int>) {
    |rest| <= |plan| && rest == plan[|plan| - |rest|..]
  }

  lemma NoErrorMet(plan: seq<int>, rest: seq<int>)
    requires NoErrors(plan)
    ensures !ErrorMet(plan, rest)
    ensures Suffix(rest, plan) ==> NoErrors(rest)
  {
    assert forall k | 0 <= k < |plan| :: plan[k] in plan;
  }

  lemma SuffixTrans(a: seq<int>, b: seq<int>, c: seq<int>)
    requires Suffix(a, b) && Suffix(b, c)
    ensures Suffix(a, c)
  {
    assert c[|c| - |a|..] == b[|b| - |a|..];
  }

  /** Errors met over two stretches of a schedule. */
  lemma ErrorSplit(plan: seq<int>, mid: seq<int>, rest: seq<int>)
    requires Suffix(mid, plan) && |rest| <= |mid|
    ensures ErrorMet(plan, rest) <==> ErrorMet(plan, mid) || ErrorMet(mid, rest)
  {
    var m := |plan| - |mid|;
    if ErrorMet(plan, rest) {
      var k :| 0 <= k < |plan| - |rest| && plan[k] < 0;
      if k >= m {
        assert mid[k - m] < 0;
      }
    }
    if ErrorMet(mid, rest) {
      var k :| 0 <= k < |mid| - |rest| && mid[k] < 0;
      assert plan[m + k] < 0;
    }
  }

  lemma ErrorNow(plan: seq<int>)
    ensures Suffix(Next(plan), plan) && Suffix(plan, plan)
    ensures ErrorMet(plan, Next(plan)) <==> plan != [] && plan[0] < 0
    ensures !ErrorMet(plan, plan)
  {
  }

  /** The bytes the calls of a schedule can move, at most n each. */
  function Capacity(plan: seq<int>, n: nat): nat {
    if plan == [] then 0 else Offer(plan[0], n) + Capacity(plan[1..], n)
  }

  function Offer(entry: int, n: nat): nat {
    if entry < 0 then 0 else Min(entry, n)
  }

  /** An entry below low comes before target bytes have been moved. */
  predicate StopsBefore(plan: seq<int>, low: int, n: nat, target: int) {
    exists k :: 0 <= k < |plan| && plan[k] < low && Capacity(plan[..k], n) < target
  }

  lemma StopsStep(plan: seq<int>, low: int, n: nat, target: int)
    requires plan != []
    ensures StopsBefore(plan, low, n, target)
       <==> target > 0 && (plan[0] < low || StopsBefore(plan[1..], low, n, target - Offer(plan[0], n)))
  {
    var rest := plan[1..];
    if StopsBefore(plan, low, n, target) {
      var k :| 0 <= k < |plan| && plan[k] < low && Capacity(plan[..k], n) < target;
      if k > 0 {
        assert plan[..k][1..] == rest[..k - 1];
        assert rest[k - 1] < low;
      }
    }
    if target > 0 && plan[0] < low {
      assert Capacity(plan[..0], n) < target;
    }
    if StopsBefore(rest, low, n, target - Offer(plan[0], n)) {
      var k :| 0 <= k < |rest| && rest[k] < low && Capacity(rest[..k], n) < target - Offer(plan[0], n);
      assert plan[..k + 1][1..] == rest[..k];
      assert plan[k + 1] < low;
    }
  }

  // ---------- descriptors ----------

  class InFile {
    const data: seq<Byte>
    var pos: nat
    var plan: seq<int>

    constructor (data: seq<Byte>, plan: seq<int>)
      ensures this.data == data && this.plan == plan && pos == 0
    {
      this.data, this.plan, this.pos := data, plan, 0;
    }

    /** No scheduled read fails. */
    ghost predicate NeverFails()
      reads this
    {
      pos <= |data| && NoErrors(plan)
    }

    /** What is still to be read. */
    ghost function Rest(): seq<Byte>
      requires pos <= |data|
      reads this
    {
      data[pos..]
    }

    method Read(buf: array<Byte>, at: nat, n: nat) returns (r: int)
      requires at + n <= buf.Length && pos <= |data|
      modifies this, buf
      ensures r == Count(old(plan), n, |data| - old(pos)) && plan == Next(old(plan))
      ensures pos == old(pos) + (if r < 0 then 0 else r) <= |data|
      ensures r >= 0 ==> buf[at..at + r] == data[old(pos)..pos]
      ensures forall i | 0 <= i < buf.Length && !(at <= i < at + r) :: buf[i] == old(buf[i])
      ensures old(NeverFails()) ==> NeverFails() && r >= 0
    {
      r := Count(plan, n, |data| - pos);
      assert plan != [] ==> plan[0] in plan && forall m | m in plan[1..] :: m in plan;
      plan := Next(plan);
      if r >= 0 {
        StoreBytes(buf, at, data[pos..pos + r]);
        pos := pos + r;
      }
    }

    method Seek(at: nat)
      requires at <= |data|
      modifies this`pos
      ensures pos == at
    {
      pos := at;
    }
  }

  lemma FrontAndRest(data: seq<Byte>, pos: nat, n: nat)
    requires pos + n <= |data|
    ensures data[pos..][..n] == data[pos..pos + n] && data[pos..][n..] == data[pos + n..]
  {
    var s := data[pos..];
    assert forall k | 0 <= k < n :: s[..n][k] == data[pos + k] && data[pos..pos + n][k] == data[pos + k];
    assert s[..n] == data[pos..pos + n];
    assert s[n..] == data[pos + n..];
  }

  class OutFile {
    var written: seq<Byte>
    var plan: seq<int>

    constructor (plan: seq<int>)
      ensures written == [] && this.plan == plan
    {
      this.written, this.plan := [], plan;
    }

    method Write(buf: array<Byte>, at: nat, n: nat) returns (r: int)
      requires at + n <= buf.Length
      modifies this
      ensures r == Count(old(plan), n, n) && plan == Next(old(plan))
      ensures if r < 0 then written == old(written) else written == old(written) + buf[at..at + r]
    {
      r := Count(plan, n, n);
      plan := Next(plan);
      if r >= 0 {
        written := written + buf[at..at + r];
      }
    }
  }

  // ---------- the write loop ----------

  /** How many bytes a write loop gets out, whether it got them all out, and the schedule
      that is left. */
  datatype Wrote = Wrote(done: nat, ok: bool, rest: seq<int>)

  function WriteRun(plan: seq<int>, left: nat): (w: Wrote)
    ensures w.done <= left && (w.ok <==> w.done == left) && |w.rest| <= |plan|
  {
    if left == 0 then Wrote(0, true, plan)
    else if plan == [] then Wrote(left, true, [])
    else if plan[0] < 0 then Wrote(0, false, plan[1..])
    else
      var n := Min(plan[0], left);
      var w := WriteRun(plan[1..], left - n);
      Wrote(n + w.done, w.ok, w.rest)
  }

  /** The same with pos more bytes before it. */
  function After(pos: nat, w: Wrote): Wrote { Wrote(pos + w.done, w.ok, w.rest) }

  /** One call of the loop. */
  lemma WriteTurn(plan: seq<int>, pos: nat, left: nat)
    requires left > 0
    ensures var c := Count(plan, left, left);
            After(pos, WriteRun(plan, left))
            == if c < 0 then Wrote(pos, false, Next(plan)) else After(pos + c, WriteRun(Next(plan), left - c))
  {
  }

  lemma {:induction false} WriteLeaves(plan: seq<int>, left: nat)
    ensures Suffix(WriteRun(plan, left).rest, plan)
    decreases |plan|
  {
    if left > 0 && plan != [] {
      ErrorNow(plan);
      if plan[0] >= 0 {
        WriteLeaves(plan[1..], left - Min(plan[0], left));
        SuffixTrans(WriteRun(plan, left).rest, plan[1..], plan);
      }
    }
  }

  /** It fails exactly when one of its calls is an error, which is when an error is
      scheduled before as many bytes as it has to write. */
  lemma {:induction false} WriteFailsExactly(plan: seq<int>, n: nat, left: nat)
    requires left <= n
    ensures WriteRun(plan, left).ok <==> !ErrorMet(plan, WriteRun(plan, left).rest)
    ensures WriteRun(plan, left).ok <==> !StopsBefore(plan, 0, n, left)
    decreases |plan|
  {
    ErrorNow(plan);
    if left == 0 {
      NothingStops(plan, 0, n, left);
    } else if plan != [] {
      StopsStep(plan, 0, n, left);
      if plan[0] >= 0 {
        var m := Min(plan[0], left);
        WriteFailsExactly(plan[1..], n, left - m);
        ErrorSplit(plan, plan[1..], WriteRun(plan, left).rest);
        NothingStops(plan[1..], 0, n, if plan[0] > left then left - Offer(plan[0], n) else 0);
      }
    }
  }

  /** On a failure what the calls before the error moved is out. */
  lemma {:induction false} WrittenOnFailure(plan: seq<int>, n: nat, left: nat)
    requires left <= n && !WriteRun(plan, left).ok
    ensures var w := WriteRun(plan, left);
            |w.rest| < |plan| && w.done == Capacity(plan[..|plan| - |w.rest| - 1], n)
    decreases |plan|
  {
    if plan[0] >= 0 {
      var m := Min(plan[0], left);
      WrittenOnFailure(plan[1..], n, left - m);
      var k := |plan| - |WriteRun(plan, left).rest| - 1;
      assert plan[..k][1..] == plan[1..][..k - 1];
    }
  }

  lemma NothingStops(plan: seq<int>, low: int, n: nat, target: int)
    requires target <= 0
    ensures !StopsBefore(plan, low, n, target)
  {
  }

  lemma Grow(base: seq<Byte>, s: seq<Byte>, pos: nat, to: nat)
    requires pos <= to <= |s|
    ensures (base + s[..pos]) + s[pos..to] == base + s[..to]
  {
  }

  /** One write() of the loop; the first pos bytes of s are out. */
  method WriteSome(out: OutFile, buf: array<Byte>, pos: nat, left: nat, ghost base: seq<Byte>, ghost s: seq<Byte>)
    returns (n: int)
    requires pos + left == |s| <= buf.Length && (forall i | 0 <= i < |s| :: buf[i] == s[i])
    requires out.written == base + s[..pos]
    modifies out
    ensures n == Count(old(out.plan), left, left) && out.plan == Next(old(out.plan))
    ensures out.written == base + s[..if n < 0 then pos else pos + n]
  {
    n := out.Write(buf, pos, left);
    if n >= 0 {
      assert buf[pos..pos + n] == s[pos..pos + n];
      Grow(base, s, pos, pos + n);
    }
  }

  /** Write until nothing is left, whatever the short writes. */
  method WriteAll(out: OutFile, buf: array<Byte>, len: nat) returns (ok: bool)
    requires len <= buf.Length
    modifies out
    ensures var w := WriteRun(old(out.plan), len);
            ok == w.ok && out.plan == w.rest && out.written == old(out.written) + buf[..len][..w.done]
  {
    var left, pos := len, 0;
    ghost var all, base, s := WriteRun(out.plan, len), out.written, buf[..len];
    while left > 0
      invariant 0 <= pos <= len && left == len - pos
      invariant out.written == base + s[..pos]
      invariant all == After(pos, WriteRun(out.plan, left))
      decreases |out.plan|, left
    {
      WriteTurn(out.plan, pos, left);
      var n := WriteSome(out, buf, pos, left, base, s);
      if n < 0 {
        return false;
      }
      left := left - n;
      pos := pos + n;
    }
    ok := true;
  }
}
