/** src/fifo.c: the reader under preemption does read. Undisturbed it makes the atomic read of the ring,
    whatever interrupts come it takes the oldest byte within four of its statements once it finds the
    ring not empty, and left alone it drains the ring. */
module FifoProgress {
  import opened Bytes
  import opened Fifo
  import opened FifoInterrupt

  /** Nothing but reader statements */
  function Alone(n: nat): (events: seq<Event>)
    ensures |events| == n && forall i :: 0 <= i < n ==> events[i] == Reader
  {
    seq(n, _ => Reader)
  }

  lemma AloneStep(m: Machine, n: nat, i: nat)
    requires InRange(m) && i < n
    ensures After(m, Alone(n), i + 1) == ReaderStep(After(m, Alone(n), i))
  {
    hide ReaderStep, InRange;
  }

  /** One undisturbed call of fifo_read_byte is the atomic read: it takes a byte if and only if the ring
      is not EMPTY, and returns after two, six or seven statements. */
  lemma WholeRead(m: Machine)
    requires m.pc == Idle && Consistent(m.ring)
    ensures InRange(m)
    ensures var (ring, b, ok) := RingRead(m.ring);
            var n := if m.ring.status == EMPTY then 2 else if ring.status == EMPTY then 7 else 6;
            var r := After(m, Alone(n), n);
            && (ok <==> m.ring.status != EMPTY)
            && r.pc == Idle && r.ring == ring && r.accepted == m.accepted
            && r.consumed == (if m.ring.status == EMPTY then m.consumed else m.consumed + [m.ring.buf[m.ring.tail]])
            && (forall i :: 0 < i < n ==> After(m, Alone(n), i).pc != Idle)
  {
    hide *;
    FirstStatements(m);
    if m.ring.status == EMPTY {
      ReadsNothing(m);
    } else if RingRead(m.ring).0.status == EMPTY {
      ReadsLast(m);
    } else {
      ReadsByte(m);
    }
  }

  lemma ReadsNothing(m: Machine)
    requires m.pc == Idle && Consistent(m.ring) && m.ring.status == EMPTY && InRange(m)
    ensures After(m, Alone(2), 2) == m && After(m, Alone(2), 1).pc == Check
  {
    hide *;
    FirstStatements(m);
    AloneStarts(m, 2);
    AloneStep(m, 2, 0);
    AloneStep(m, 2, 1);
  }

  /** The first six statements of a read */
  lemma SixStatements(m: Machine, n: nat)
    requires m.pc == Idle && Consistent(m.ring) && m.ring.status != EMPTY && InRange(m) && 6 <= n
    ensures var events := Alone(n);
            && After(m, events, 1).pc == Check && After(m, events, 2) == m.(pc := Load)
            && After(m, events, 3) == ReaderStep(After(m, events, 2)) && After(m, events, 4) == ReaderStep(After(m, events, 3))
            && After(m, events, 5) == ReaderStep(After(m, events, 4)) && After(m, events, 6) == ReaderStep(After(m, events, 5))
  {
    hide *;
    FirstStatements(m);
    AloneStarts(m, n);
    AloneStep(m, n, 0);
    AloneStep(m, n, 1);
    AloneStep(m, n, 2);
    AloneStep(m, n, 3);
    AloneStep(m, n, 4);
    AloneStep(m, n, 5);
  }

  lemma ReadsByte(m: Machine)
    requires m.pc == Idle && Consistent(m.ring) && m.ring.status != EMPTY && InRange(m) && RingRead(m.ring).0.status != EMPTY
    ensures var r := After(m, Alone(6), 6);
            && r.pc == Idle && r.ring == RingRead(m.ring).0 && r.accepted == m.accepted && r.consumed == m.consumed + [m.ring.buf[m.ring.tail]]
            && forall i :: 0 < i < 6 ==> After(m, Alone(6), i).pc != Idle
  {
    hide *;
    SixStatements(m, 6);
    LastStatements(m, After(m, Alone(6), 2));
    forall i | 0 < i < 6 ensures After(m, Alone(6), i).pc != Idle {
      assert i == 1 || i == 2 || i == 3 || i == 4 || i == 5;
    }
  }

  lemma ReadsLast(m: Machine)
    requires m.pc == Idle && Consistent(m.ring) && m.ring.status != EMPTY && InRange(m) && RingRead(m.ring).0.status == EMPTY
    ensures var r := After(m, Alone(7), 7);
            && r.pc == Idle && r.ring == RingRead(m.ring).0 && r.accepted == m.accepted && r.consumed == m.consumed + [m.ring.buf[m.ring.tail]]
            && forall i :: 0 < i < 7 ==> After(m, Alone(7), i).pc != Idle
  {
    hide *;
    SixStatements(m, 7);
    AloneStep(m, 7, 6);
    LastStatements(m, After(m, Alone(7), 2));
    forall i | 0 < i < 7 ensures After(m, Alone(7), i).pc != Idle {
      assert i == 1 || i == 2 || i == 3 || i == 4 || i == 5 || i == 6;
    }
  }

  lemma AloneStarts(m: Machine, n: nat)
    requires InRange(m)
    ensures After(m, Alone(n), 0) == m
  {
  }

  /** The test of the status */
  lemma FirstStatements(m: Machine)
    requires m.pc == Idle && Consistent(m.ring)
    ensures InRange(m)
    ensures var m1 := ReaderStep(m);
            var m2 := ReaderStep(m1);
            && m1.pc == Check && m2 == m.(pc := if m.ring.status == EMPTY then Idle else Load)
    ensures RingRead(m.ring).2 <==> m.ring.status != EMPTY
    ensures m.ring.status == EMPTY ==> RingRead(m.ring).0 == m.ring
  {
  }

  /** The statements behind it */
  lemma LastStatements(m: Machine, m2: Machine)
    requires m.pc == Idle && Consistent(m.ring) && m.ring.status != EMPTY && m2 == m.(pc := Load)
    ensures InRange(m2)
    ensures var m3 := ReaderStep(m2);
            var m4 := ReaderStep(m3);
            var m5 := ReaderStep(m4);
            var m6 := ReaderStep(m5);
            var m7 := ReaderStep(m6);
            var r := if RingRead(m.ring).0.status == EMPTY then m7 else m6;
            && m3.pc == Increment && m4.pc == Wrap && m5.pc == Compare && (RingRead(m.ring).0.status == EMPTY ==> m6.pc == Store)
            && r.pc == Idle && r.ring == RingRead(m.ring).0 && r.accepted == m.accepted && r.consumed == m.consumed + [m.ring.buf[m.ring.tail]]
  {
    var m3 := ReaderStep(m2);
    var m4 := ReaderStep(m3);
    assert m4 == m.(pc := Wrap, byte := m.ring.buf[m.ring.tail], fired := 0, ring := m.ring.(tail := m.ring.tail + 1),
                    consumed := m.consumed + [m.ring.buf[m.ring.tail]]);
    var m5 := ReaderStep(m4);
    assert m5 == m4.(pc := Compare, ring := m.ring.(tail := Advance(m.ring.tail)));
  }

  // ---- progress under interrupts ----

  /** How many of the first `n` events are statements of the reader */
  function Statements(events: seq<Event>, n: nat): (k: nat)
    requires n <= |events|
    ensures k <= n
  {
    if n == 0 then 0 else Statements(events, n - 1) + if events[n - 1] == Reader then 1 else 0
  }

  /** The reader has made `k` of the four statements that take the byte `b`, behind `read`. */
  predicate Taking(m: Machine, k: nat, read: seq<Byte>, b: Byte) {
    && Inv(m) && k <= 4 && (k < 4 ==> m.ring.status != EMPTY && m.ring.tail < FIFO_SIZE && m.ring.buf[m.ring.tail] == b && 0 < Pending(m))
    && m.consumed == (if k < 4 then read else read + [b])
    && m.pc == if k == 0 then Idle else if k == 1 then Check else if k == 2 then Load else if k == 3 then Increment else Wrap
  }

  lemma TakingStarts(m: Machine)
    requires Inv(m) && m.pc == Idle && m.ring.status != EMPTY
    ensures InRange(m) && m.ring.tail < FIFO_SIZE && |m.consumed| < |m.accepted|
    ensures Taking(m, 0, m.consumed, m.ring.buf[m.ring.tail]) && m.ring.buf[m.ring.tail] == m.accepted[|m.consumed|]
  {
    AroundPop(m.ring.buf, m.ring.tail, Pending(m));
    hide Around;
    assert m.accepted == m.consumed + [m.ring.buf[m.ring.tail]] + Around(m.ring.buf, Advance(m.ring.tail), Pending(m) - 1);
  }

  lemma TakingStatement(m: Machine, k: nat, read: seq<Byte>, b: Byte)
    requires Taking(m, k, read, b) && k < 4
    ensures Taking(ReaderStep(m), k + 1, read, b)
  {
    ReaderKeepsInv(m);
    hide Around;
  }

  lemma TakingInterrupt(m: Machine, k: nat, read: seq<Byte>, b: Byte, x: Byte)
    requires Taking(m, k, read, b) && k < 4
    ensures Taking(Interrupt(m, x), k, read, b)
  {
    InterruptKeepsInv(m, x);
    hide Around;
  }

  lemma TakingInRange(m: Machine, k: nat, read: seq<Byte>, b: Byte)
    requires Taking(m, k, read, b)
    ensures InRange(m) && (k == 4 ==> m.consumed == read + [b])
  {
    hide Around;
  }

  /** Up to its fourth statement nothing disturbs the reader. */
  lemma {:induction false} TakingOn(m: Machine, events: seq<Event>, n: nat, b: Byte)
    requires InRange(m) && n <= |events| && Taking(m, 0, m.consumed, b) && Statements(events, n) <= 4
    requires n > 0 ==> Statements(events, n - 1) < 4
    ensures Taking(After(m, events, n), Statements(events, n), m.consumed, b)
  {
    hide Taking, ReaderStep, Interrupt, InRange;
    if n != 0 {
      TakingOn(m, events, n - 1, b);
      var r, k := After(m, events, n - 1), Statements(events, n - 1);
      match events[n - 1]
      case Reader => TakingStatement(r, k, m.consumed, b);
      case Received(x) => TakingInterrupt(r, k, m.consumed, b, x);
    }
  }

  lemma {:induction false} NothingUnread(m: Machine, events: seq<Event>, n: nat, k: nat)
    requires InRange(m) && k <= n <= |events|
    ensures After(m, events, k).consumed <= After(m, events, n).consumed
  {
    if k < n {
      NothingUnread(m, events, n - 1, k);
    }
  }

  lemma {:induction false} FourthStatement(events: seq<Event>, n: nat) returns (k: nat)
    requires n <= |events| && 4 <= Statements(events, n)
    ensures 0 < k <= n && Statements(events, k) == 4 && Statements(events, k - 1) < 4
  {
    if Statements(events, n - 1) < 4 {
      k := n;
    } else {
      k := FourthStatement(events, n - 1);
    }
  }

  /** Progress: a reader outside fifo_read_byte that finds the ring not EMPTY has consumed the oldest
      byte after four of its statements, whatever interrupts come between them. */
  lemma FourStatementsRead(m: Machine, events: seq<Event>, n: nat)
    requires Inv(m) && m.pc == Idle && m.ring.status != EMPTY && n <= |events| && 4 <= Statements(events, n)
    ensures InRange(m) && |m.consumed| < |m.accepted|
    ensures m.consumed + [m.accepted[|m.consumed|]] <= After(m, events, n).consumed
  {
    TakingStarts(m);
    hide *;
    var k := FourthStatement(events, n);
    TakingOn(m, events, k, m.ring.buf[m.ring.tail]);
    TakingInRange(After(m, events, k), 4, m.consumed, m.ring.buf[m.ring.tail]);
    NothingUnread(m, events, n, k);
  }

  // ---- the reader alone ----

  lemma AloneConcat(m: Machine, a: nat, b: nat)
    requires InRange(m)
    ensures After(m, Alone(a + b), a + b) == After(After(m, Alone(a), a), Alone(b), b)
  {
    AfterConcat(m, Alone(a), Alone(b), b);
    assert Alone(a) + Alone(b) == Alone(a + b);
    hide After;
  }

  lemma {:induction false} AloneKeepsInv(m: Machine, n: nat, i: nat)
    requires Inv(m) && i <= n
    ensures InRange(m) && Inv(After(m, Alone(n), i))
  {
    hide Inv, ReaderStep, InRange;
    InvInRange(m);
    if i != 0 {
      AloneKeepsInv(m, n, i - 1);
      ReaderKeepsInv(After(m, Alone(n), i - 1));
    }
  }

  /** What an idle reader knows of the ring if nothing is hidden from it */
  lemma IdleRing(m: Machine)
    requires Inv(m) && m.pc == Idle && m.ring.status != EMPTY
    ensures InRange(m) && Consistent(m.ring) && 0 < Pending(m)
    ensures RingRead(m.ring).0.status == EMPTY <==> Pending(m) == 1
  {
    hide Around;
  }

  /** Left alone, a reader that finds the ring not EMPTY consumes all that has been accepted, with at
      most seven statements a byte, and leaves the ring EMPTY. */
  lemma {:induction false} DrainsAlone(m: Machine) returns (n: nat)
    requires Inv(m) && m.pc == Idle && m.ring.status != EMPTY
    ensures InRange(m) && n <= 7 * Pending(m)
    ensures var r := After(m, Alone(n), n); r.pc == Idle && r.ring.status == EMPTY && r.consumed == m.accepted == r.accepted
    decreases Pending(m)
  {
    hide *;
    IdleRing(m);
    WholeRead(m);
    TakingStarts(m);
    var k := if RingRead(m.ring).0.status == EMPTY then 7 else 6;
    var r := After(m, Alone(k), k);
    AloneKeepsInv(m, k, k);
    PendingLess(m, r);
    if RingRead(m.ring).0.status == EMPTY {
      n := k;
      AllConsumed(r);
    } else {
      var l := DrainsAlone(r);
      n := k + l;
      AloneConcat(m, k, l);
    }
  }

  lemma PendingLess(m: Machine, r: Machine)
    requires r.accepted == m.accepted && |r.consumed| == |m.consumed| + 1
    ensures Pending(r) == Pending(m) - 1
  {
  }

  lemma AllConsumed(m: Machine)
    requires Inv(m) && Pending(m) == 0
    ensures m.consumed == m.accepted
  {
    assert Around(m.ring.buf, Front(m), 0) == [];
    hide Around;
  }
}
