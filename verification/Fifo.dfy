/** src/fifo.c: the 64-byte ring between the UART interrupt and its reader. */
module Fifo {
  import opened Bytes

  const FIFO_SIZE: nat := 64

  datatype Status = FULL | EMPTY | READY

  type Buffer = b: seq<Byte> | |b| == 64 witness seq(64, _ => 0)

  /** struct fifo_t as a value */
  datatype Ring = Ring(buf: Buffer, head: nat, tail: nat, status: Status)

  function Advance(i: nat): nat {
    if i + 1 == FIFO_SIZE then 0 else i + 1
  }

  /** fifo_write_byte */
  function RingWrite(r: Ring, b: Byte): (Ring, bool)
    requires r.head < FIFO_SIZE
  {
    if r.status == FULL then (r, false)
    else
      var head := Advance(r.head);
      (Ring(r.buf[r.head := b], head, r.tail, if head == r.tail then FULL else READY), true)
  }

  /** fifo_read_byte; the byte is meaningful when the flag is true. FULL is left only at EMPTY. */
  function RingRead(r: Ring): (Ring, Byte, bool)
    requires r.tail < FIFO_SIZE
  {
    if r.status == EMPTY then (r, 0, false)
    else
      var tail := Advance(r.tail);
      (r.(tail := tail, status := if tail == r.head then EMPTY else r.status), r.buf[r.tail], true)
  }

  // ---- the queue that a ring stands for ----

  /** A queue of at most 64 bytes and a latch that rejects writes while it is set. */
  datatype Queue = Queue(items: seq<Byte>, latched: bool)

  predicate Consistent(r: Ring) {
    r.head < FIFO_SIZE && r.tail < FIFO_SIZE &&
    (r.status == EMPTY ==> r.head == r.tail) && (r.status == READY ==> r.head != r.tail)
  }

  function Len(r: Ring): (n: nat)
    requires Consistent(r)
    ensures n <= FIFO_SIZE
  {
    if r.status == EMPTY then 0
    else if r.tail < r.head then r.head - r.tail
    else r.head + FIFO_SIZE - r.tail
  }

  /** `p` bytes of the buffer from `front` on, around its end. */
  function Around(buf: Buffer, front: nat, p: nat): (bs: seq<Byte>)
    ensures |bs| == p
  {
    seq(p, i requires 0 <= i < p => buf[(front + i) % FIFO_SIZE])
  }

  lemma AroundPop(buf: Buffer, front: nat, p: nat)
    requires 0 < p && front < FIFO_SIZE
    ensures Around(buf, front, p) == [buf[front]] + Around(buf, Advance(front), p - 1)
  {
    forall i | 0 < i < p ensures Around(buf, front, p)[i] == Around(buf, Advance(front), p - 1)[i - 1] {
      assert (front + i) % FIFO_SIZE == (Advance(front) + (i - 1)) % FIFO_SIZE;
    }
  }

  lemma AroundPush(buf: Buffer, front: nat, p: nat, b: Byte)
    requires p < FIFO_SIZE && front < FIFO_SIZE
    ensures Around(buf[(front + p) % FIFO_SIZE := b], front, p + 1) == Around(buf, front, p) + [b]
  {
    var c := buf[(front + p) % FIFO_SIZE := b];
    forall i | 0 <= i < p ensures Around(c, front, p + 1)[i] == Around(buf, front, p)[i] {
      assert (front + i) % FIFO_SIZE != (front + p) % FIFO_SIZE;
    }
  }

  function Items(r: Ring): (items: seq<Byte>)
    requires Consistent(r)
    ensures |items| == Len(r)
  {
    Around(r.buf, r.tail, Len(r))
  }

  lemma NotEmpty(r: Ring)
    requires Consistent(r) && r.status != EMPTY
    ensures Items(r) != []
  {
    assert Len(r) > 0;
  }

  function Abs(r: Ring): Queue
    requires Consistent(r)
  {
    Queue(Items(r), r.status == FULL)
  }

  /** A write succeeds iff the latch is clear; filling the queue sets the latch. */
  function QueueWrite(q: Queue, b: Byte): (Queue, bool) {
    if q.latched then (q, false) else (Queue(q.items + [b], |q.items| + 1 == FIFO_SIZE), true)
  }

  /** A read succeeds iff the queue is not empty; only emptying it clears the latch. */
  function QueueRead(q: Queue): (Queue, Byte, bool) {
    if q.items == [] then (q, 0, false) else (Queue(q.items[1..], q.latched && |q.items| > 1), q.items[0], true)
  }

  lemma WriteRefines(r: Ring, b: Byte)
    requires Consistent(r)
    ensures var (r1, ok) := RingWrite(r, b); Consistent(r1) && (Abs(r1), ok) == QueueWrite(Abs(r), b)
  {
    if r.status != FULL {
      assert (r.tail + Len(r)) % FIFO_SIZE == r.head;
      AroundPush(r.buf, r.tail, Len(r), b);
    }
    hide Around;
  }

  lemma ReadRefines(r: Ring)
    requires Consistent(r)
    ensures var (r1, b, ok) := RingRead(r); Consistent(r1) && (Abs(r1), b, ok) == QueueRead(Abs(r))
  {
    if r.status != EMPTY {
      AroundPop(r.buf, r.tail, Len(r));
    }
    hide Around;
  }

  // ---- whole runs of calls ----

  datatype Call = Write(b: Byte) | Read

  /** What a sequence of calls has put in, taken out and left behind. */
  datatype Run<S> = Run(state: S, accepted: seq<Byte>, consumed: seq<Byte>)

  function RingRun(r: Ring, calls: seq<Call>, n: nat): (run: Run<Ring>)
    requires Consistent(r) && n <= |calls|
    ensures Consistent(run.state)
  {
    if n == 0 then Run(r, [], [])
    else
      var before := RingRun(r, calls, n - 1);
      match calls[n - 1]
      case Write(b) =>
        var (r1, ok) := RingWrite(before.state, b);
        Run(r1, if ok then before.accepted + [b] else before.accepted, before.consumed)
      case Read =>
        var (r1, b, ok) := RingRead(before.state);
        Run(r1, before.accepted, if ok then before.consumed + [b] else before.consumed)
  }

  function QueueRun(q: Queue, calls: seq<Call>, n: nat): (run: Run<Queue>)
    requires n <= |calls|
  {
    if n == 0 then Run(q, [], [])
    else
      var before := QueueRun(q, calls, n - 1);
      match calls[n - 1]
      case Write(b) =>
        var (q1, ok) := QueueWrite(before.state, b);
        Run(q1, if ok then before.accepted + [b] else before.accepted, before.consumed)
      case Read =>
        var (q1, b, ok) := QueueRead(before.state);
        Run(q1, before.accepted, if ok then before.consumed + [b] else before.consumed)
  }

  /** In every run the ring is indistinguishable from the latched queue ... */
  lemma {:induction false} RunRefines(r: Ring, calls: seq<Call>, n: nat)
    requires Consistent(r) && n <= |calls|
    ensures var run := RingRun(r, calls, n);
            QueueRun(Abs(r), calls, n) == Run(Abs(run.state), run.accepted, run.consumed)
  {
    if n != 0 {
      RunRefines(r, calls, n - 1);
      var before := RingRun(r, calls, n - 1);
      hide Items, RingWrite, RingRead;
      match calls[n - 1]
      case Write(b) => WriteRefines(before.state, b);
      case Read => ReadRefines(before.state);
    }
  }

  lemma QueueConserves(q: Queue, items: seq<Byte>, accepted: seq<Byte>, consumed: seq<Byte>, b: Byte)
    requires consumed + q.items == items + accepted
    ensures var (q1, ok) := QueueWrite(q, b);
            consumed + q1.items == items + if ok then accepted + [b] else accepted
    ensures var (q1, x, ok) := QueueRead(q);
            (if ok then consumed + [x] else consumed) + q1.items == items + accepted
  {
    assert consumed + (q.items + [b]) == (items + accepted) + [b];
    if q.items != [] {
      assert q.items == [q.items[0]] + q.items[1..];
      assert consumed + [q.items[0]] + q.items[1..] == consumed + q.items;
    }
  }

  /** ... and no byte is lost, duplicated or reordered. */
  lemma {:induction false} RunConserves(r: Ring, calls: seq<Call>, n: nat)
    requires Consistent(r) && n <= |calls|
    ensures var run := RingRun(r, calls, n);
            run.consumed + Items(run.state) == Items(r) + run.accepted
  {
    hide Items, RingWrite, RingRead, Consistent;
    if n != 0 {
      RunConserves(r, calls, n - 1);
      var before := RingRun(r, calls, n - 1);
      WriteRefines(before.state, if calls[n - 1].Write? then calls[n - 1].b else 0);
      ReadRefines(before.state);
      QueueConserves(Abs(before.state), Items(r), before.accepted, before.consumed,
                     if calls[n - 1].Write? then calls[n - 1].b else 0);
    }
  }

  // ---- strings of bytes ----

  /** A function of type char returns `v`: plain char is unsigned in the firmware (CMakeLists.txt
      line 59), where -1 becomes 255, and signed on most hosts. */
  function CharOf(v: int, signed: bool): int {
    if signed || v >= 0 then v else v + 0x100
  }

  /** fifo_writen, its first `n` turns; it stops at a byte whose write returns a negative number */
  function RingWriteN(signed: bool, r: Ring, bs: seq<Byte>, n: nat): (w: (Ring, int))
    requires Consistent(r) && n <= |bs|
    ensures Consistent(w.0)
  {
    if n == 0 then (r, 0)
    else
      var (r1, res) := RingWriteN(signed, r, bs, n - 1);
      if res < 0 then (r1, res)
      else
        var (r2, ok) := RingWrite(r1, bs[n - 1]);
        (r2, if !ok && CharOf(-1, signed) < 0 then CharOf(-1, signed) else 0)
  }

  /** fifo_readn into `buf`, its first `n` turns */
  function RingReadN(signed: bool, r: Ring, buf: seq<Byte>, n: nat): (w: (Ring, seq<Byte>, int))
    requires Consistent(r) && n <= |buf|
    ensures Consistent(w.0) && |w.1| == |buf|
  {
    if n == 0 then (r, buf, 0)
    else
      var (r1, out, res) := RingReadN(signed, r, buf, n - 1);
      if res < 0 then (r1, out, res)
      else
        var (r2, b, ok) := RingRead(r1);
        (r2, if ok then out[n - 1 := b] else out, if !ok && CharOf(-1, signed) < 0 then CharOf(-1, signed) else 0)
  }

  function Room(r: Ring): nat
    requires Consistent(r)
  {
    if r.status == FULL then 0 else FIFO_SIZE - Len(r)
  }

  /** fifo_writen takes exactly the bytes for which there is room, none while latched, whether it
      stops at the first rejected byte or not; it returns a failure only where char is signed. */
  lemma {:induction false} WriteNExact(signed: bool, r: Ring, bs: seq<Byte>, n: nat)
    requires Consistent(r) && n <= |bs|
    ensures var (r1, res) := RingWriteN(signed, r, bs, n);
            && Items(r1) == Items(r) + bs[..if n <= Room(r) then n else Room(r)]
            && (r1.status == FULL <==> r.status == FULL || Len(r1) == FIFO_SIZE)
            && res == if n <= Room(r) || !signed then 0 else -1
  {
    if n != 0 {
      WriteNExact(signed, r, bs, n - 1);
      hide RingWrite, Items;
      WriteRefines(RingWriteN(signed, r, bs, n - 1).0, bs[n - 1]);
    }
  }

  /** fifo_readn takes the oldest bytes in order; it returns a failure only where char is signed. */
  lemma {:induction false} ReadNExact(signed: bool, r: Ring, buf: seq<Byte>, n: nat)
    requires Consistent(r) && n <= |buf|
    ensures var (r1, out, res) := RingReadN(signed, r, buf, n);
            var k := if n <= Len(r) then n else Len(r);
            && Items(r1) == Items(r)[k..] && out[..k] == Items(r)[..k] && out[k..] == buf[k..]
            && res == if n <= Len(r) || !signed then 0 else -1
  {
    if n != 0 {
      ReadNExact(signed, r, buf, n - 1);
      hide RingRead, Items;
      var (r1, out, _) := RingReadN(signed, r, buf, n - 1);
      ReadRefines(r1);
      if n <= Len(r) {
        OneMoreOut(Items(r), out, buf, n - 1);
      }
    }
  }

  lemma OneMoreOut(items: seq<Byte>, out: seq<Byte>, buf: seq<Byte>, k: nat)
    requires k < |items| && k < |buf| == |out| && out[..k] == items[..k] && out[k..] == buf[k..]
    ensures items[k..][0] == items[k] && items[k..][1..] == items[k + 1..]
    ensures var now := out[k := items[k]]; now[..k + 1] == items[..k + 1] && now[k + 1..] == buf[k + 1..]
  {
    assert out[k..][1..] == out[k + 1..] && buf[k..][1..] == buf[k + 1..];
    assert items[..k + 1] == items[..k] + [items[k]];
  }

  /** The result of fifo_writen tells whether all the bytes went. */
  predicate WriteTells(signed: bool, r: Ring, bs: seq<Byte>)
    requires Consistent(r)
  {
    RingWriteN(signed, r, bs, |bs|).1 == 0 <==> Items(RingWriteN(signed, r, bs, |bs|).0) == Items(r) + bs
  }

  /** The result of fifo_readn tells whether the whole buffer was filled. */
  predicate ReadTells(signed: bool, r: Ring, buf: seq<Byte>)
    requires Consistent(r)
  {
    RingReadN(signed, r, buf, |buf|).2 == 0 <==> |buf| <= Len(r)
  }

  lemma TellsHere(signed: bool, r: Ring, bs: seq<Byte>)
    requires Consistent(r)
    ensures WriteTells(signed, r, bs) <==> signed || |bs| <= Room(r)
    ensures ReadTells(signed, r, bs) <==> signed || |bs| <= Len(r)
  {
    WriteNExact(signed, r, bs, |bs|);
    ReadNExact(signed, r, bs, |bs|);
    hide RingWriteN, RingReadN, Items, Room, Len;
    assert bs[..|bs|] == bs;
    assert |bs| > Room(r) ==> |Items(r) + bs[..Room(r)]| < |Items(r) + bs|;
  }

  lemma FullAndEmptyRing(zeros: Buffer)
    ensures var full, empty := Ring(zeros, 0, 0, FULL), Ring(zeros, 0, 0, EMPTY);
            Consistent(full) && Consistent(empty) && Room(full) == 0 && Len(empty) == 0
  {
  }

  /** They tell, for every ring and all bytes, if and only if char is signed. */
  lemma ResultsTellIff(signed: bool)
    ensures (forall r, bs: seq<Byte> | Consistent(r) :: WriteTells(signed, r, bs)) <==> signed
    ensures (forall r, buf: seq<Byte> | Consistent(r) :: ReadTells(signed, r, buf)) <==> signed
  {
    hide *;
    var zeros: Buffer := seq(64, _ => 0);
    FullAndEmptyRing(zeros);
    TellsHere(signed, Ring(zeros, 0, 0, FULL), [0]);
    TellsHere(signed, Ring(zeros, 0, 0, EMPTY), [0]);
    forall r, bs: seq<Byte> | Consistent(r) && signed ensures WriteTells(signed, r, bs) && ReadTells(signed, r, bs) {
      TellsHere(signed, r, bs);
    }
  }

  lemma WriteIntoEmpty(signed: bool, r: Ring, bs: seq<Byte>)
    requires Consistent(r) && r.status == EMPTY && |bs| <= FIFO_SIZE
    ensures RingWriteN(signed, r, bs, |bs|).1 == 0 && Items(RingWriteN(signed, r, bs, |bs|).0) == bs
  {
    WriteNExact(signed, r, bs, |bs|);
    assert Items(r) == [];
    hide Items, RingWriteN;
    assert [] + bs[..|bs|] == bs;
  }

  lemma ReadAll(signed: bool, r: Ring, buf: seq<Byte>)
    requires Consistent(r) && |buf| == Len(r)
    ensures var (r1, out, res) := RingReadN(signed, r, buf, |buf|);
            res == 0 && out == Items(r) && r1.status == EMPTY
  {
    ReadNExact(signed, r, buf, |buf|);
    hide Items, RingReadN;
    var (r1, out, _) := RingReadN(signed, r, buf, |buf|);
    assert out == out[..|buf|] && Items(r) == Items(r)[..|buf|];
    assert |Items(r1)| == 0;
  }

  /** An empty ring at any position takes exactly the first 64 of the bytes, is FULL if and only if there
      are as many, and then takes no more until all of them have been read. */
  lemma Capacity(signed: bool, r: Ring, bs: seq<Byte>, n: nat, b: Byte)
    requires Consistent(r) && r.status == EMPTY && n <= 64 <= |bs|
    ensures var full := RingWriteN(signed, r, bs, |bs|).0;
            var left := RingReadN(signed, full, seq(n, _ => 0), n).0;
            && Items(full) == bs[..64] && full.status == FULL
            && Items(left) == bs[n..64] && (left.status == FULL <==> n < 64) && (RingWrite(left, b).1 <==> n == 64)
    ensures forall k: nat :: k < 64 ==> RingWriteN(signed, r, bs, k).0.status != FULL && Items(RingWriteN(signed, r, bs, k).0) == bs[..k]
  {
    var full, buf := RingWriteN(signed, r, bs, |bs|).0, seq(n, _ => 0);
    Filled(signed, r, bs, |bs|);
    ReadNExact(signed, full, buf, n);
    LatchedUntilEmpty(signed, full, buf, n);
    forall k: nat | k < 64 ensures RingWriteN(signed, r, bs, k).0.status != FULL && Items(RingWriteN(signed, r, bs, k).0) == bs[..k] {
      Filled(signed, r, bs, k);
    }
    WriteIff(RingReadN(signed, full, buf, n).0, b);
    hide *;
    assert bs[..64][n..] == bs[n..64];
  }

  lemma Filled(signed: bool, r: Ring, bs: seq<Byte>, n: nat)
    requires Consistent(r) && r.status == EMPTY && n <= |bs|
    ensures var full := RingWriteN(signed, r, bs, n).0;
            Items(full) == bs[..if n <= 64 then n else 64] && Len(full) == (if n <= 64 then n else 64) && (full.status == FULL <==> 64 <= n)
  {
    WriteNExact(signed, r, bs, n);
    assert Items(r) == [];
    hide Items, RingWriteN;
    var full := RingWriteN(signed, r, bs, n).0;
    assert [] + bs[..if n <= 64 then n else 64] == bs[..if n <= 64 then n else 64];
    assert |Items(full)| == Len(full);
  }

  lemma WriteIff(r: Ring, b: Byte)
    requires Consistent(r)
    ensures RingWrite(r, b).1 <==> r.status != FULL
  {
  }

  /** Reading from a full ring leaves it FULL until nothing is left. */
  lemma {:induction false} LatchedUntilEmpty(signed: bool, r: Ring, buf: seq<Byte>, n: nat)
    requires Consistent(r) && r.status == FULL && Len(r) == 64 && n <= |buf| && n <= 64
    ensures var left := RingReadN(signed, r, buf, n).0; (left.status == FULL <==> n < 64) && (left.status == EMPTY <==> n == 64)
  {
    if n != 0 {
      LatchedUntilEmpty(signed, r, buf, n - 1);
      var before := RingReadN(signed, r, buf, n - 1).0;
      ReadNExact(signed, r, buf, n - 1);
      ReadNExact(signed, r, buf, n);
      assert Len(before) == 64 - (n - 1) by {
        assert |Items(before)| == Len(before);
      }
      hide Items;
    }
  }

  /** From an empty ring at any position, writing at most 64 bytes and reading as many back is
      the identity and leaves the ring empty. */
  lemma RoundTrip(signed: bool, r: Ring, bs: seq<Byte>, buf: seq<Byte>)
    requires Consistent(r) && r.status == EMPTY && |bs| == |buf| <= 64
    ensures var (r1, written) := RingWriteN(signed, r, bs, |bs|);
            var (r2, out, read) := RingReadN(signed, r1, buf, |buf|);
            written == 0 && read == 0 && out == bs && r2.status == EMPTY
  {
    WriteIntoEmpty(signed, r, bs);
    var r1 := RingWriteN(signed, r, bs, |bs|).0;
    hide RingWriteN, RingReadN;
    assert |Items(r1)| == Len(r1);
    ReadAll(signed, r1, buf);
  }

  lemma {:induction false} RejectedStays(signed: bool, r: Ring, bs: seq<Byte>, n: nat, m: nat)
    requires Consistent(r) && n <= m <= |bs| && RingWriteN(signed, r, bs, n).1 < 0
    ensures RingWriteN(signed, r, bs, m) == RingWriteN(signed, r, bs, n)
  {
    if n < m {
      RejectedStays(signed, r, bs, n, m - 1);
    }
  }

  lemma {:induction false} DrainedStays(signed: bool, r: Ring, buf: seq<Byte>, n: nat, m: nat)
    requires Consistent(r) && n <= m <= |buf| && RingReadN(signed, r, buf, n).2 < 0
    ensures RingReadN(signed, r, buf, m) == RingReadN(signed, r, buf, n)
  {
    if n < m {
      DrainedStays(signed, r, buf, n, m - 1);
    }
  }

  // ---- the object the source updates in place ----

  /** struct fifo_t */
  class FifoBuffer {
    const buf: array<Byte>
    /** How the compiler takes plain char */
    const signedChar: bool
    var head: nat
    var tail: nat
    var status: Status

    ghost predicate Valid()
      reads this, buf
    {
      buf.Length == FIFO_SIZE && Consistent(Ring(buf[..], head, tail, status))
    }

    ghost function State(): Ring
      requires Valid()
      reads this, buf
    {
      Ring(buf[..], head, tail, status)
    }

    ghost function Contents(): seq<Byte>
      requires Valid()
      reads this, buf
    {
      Items(State())
    }

    /** initialize_fifo */
    constructor (signedChar: bool)
      ensures Valid() && Contents() == [] && status == EMPTY && fresh(buf) && this.signedChar == signedChar
    {
      this.signedChar := signedChar;
      buf := new Byte[64](_ => 0);
      head, tail, status := 0, 0, EMPTY;
    }

    /** fifo_write_byte */
    method WriteByte(b: Byte) returns (r: int)
      requires Valid()
      modifies this, buf
      ensures Valid() && (State(), r == 0) == RingWrite(old(State()), b) && (r == 0 || r == CharOf(-1, signedChar))
      ensures (Abs(State()), r == 0) == QueueWrite(old(Abs(State())), b)
    {
      WriteRefines(State(), b);
      if status != FULL {
        buf[head] := b;
        head := head + 1;
        if head == FIFO_SIZE {
          head := 0;
        }
        if head == tail {
          status := FULL;
        } else {
          status := READY;
        }
        return 0;
      }
      r := CharOf(-1, signedChar);
    }

    /** fifo_read_byte; the out-parameter keeps its value when there is nothing to read */
    method ReadByte(was: Byte) returns (r: int, b: Byte)
      requires Valid()
      modifies this
      ensures Valid() && (r == 0 || r == CharOf(-1, signedChar))
      ensures var (r1, x, ok) := RingRead(old(State())); State() == r1 && (r == 0 <==> ok) && b == if ok then x else was
      ensures var (q, x, ok) := QueueRead(old(Abs(State())));
              Abs(State()) == q && (r == 0 <==> ok) && b == if ok then x else was
    {
      ReadRefines(State());
      b := was;
      if status != EMPTY {
        b := buf[tail];
        tail := tail + 1;
        if tail == FIFO_SIZE {
          tail := 0;
        }
        if tail == head {
          status := EMPTY;
        }
        return 0, b;
      }
      r := CharOf(-1, signedChar);
    }

    /** fifo_writen */
    method WriteN(bs: seq<Byte>) returns (r: int)
      requires Valid()
      modifies this, buf
      ensures Valid() && (State(), r) == RingWriteN(signedChar, old(State()), bs, |bs|)
    {
      hide RingWrite, Consistent, Items;
      for i := 0 to |bs|
        invariant Valid() && RingWriteN(signedChar, old(State()), bs, i) == (State(), 0)
      {
        r := WriteByte(bs[i]);
        if r < 0 {
          RejectedStays(signedChar, old(State()), bs, i + 1, |bs|);
          return CharOf(-1, signedChar);
        }
      }
      r := 0;
    }

    /** fifo_readn */
    method ReadN(out: array<Byte>) returns (r: int)
      requires Valid() && out != buf
      modifies this, out
      ensures Valid() && (State(), out[..], r) == RingReadN(signedChar, old(State()), old(out[..]), out.Length)
    {
      hide RingRead, Consistent, Items;
      for i := 0 to out.Length
        invariant Valid() && RingReadN(signedChar, old(State()), old(out[..]), i) == (State(), out[..], 0)
      {
        ghost var before := out[..];
        r, out[i] := ReadByte(out[i]);
        assert r != 0 ==> out[..] == before;
        if r < 0 {
          DrainedStays(signedChar, old(State()), old(out[..]), i + 1, out.Length);
          return CharOf(-1, signedChar);
        }
      }
      r := 0;
    }
  }
}
