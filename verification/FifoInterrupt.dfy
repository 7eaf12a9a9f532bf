/** The ring shared with the UART receive interrupt: fifo_read_byte statement by statement, the
    interrupt handler (one whole fifo_write_byte) between any two of them. */
module FifoInterrupt {
  import opened Bytes
  import opened Fifo

  /** The statement that the reader executes next. */
  datatype Pc =
    | Idle      // outside fifo_read_byte
    | Check     // if (f_status != FIFO_EMPTY)
    | Load      // *byte = f_buf[f_tail]
    | Increment // f_tail++
    | Wrap      // if (f_tail == FIFO_SIZE) f_tail = 0
    | Compare   // if (f_tail == f_head)
    | Store     // f_status = FIFO_EMPTY

  /** `accepted` and `consumed` are the bytes that went into and came out of the ring so far;
      `fired` counts accepted interrupts since the reader last incremented the tail. */
  datatype Machine = Machine(
    ring: Ring, pc: Pc, byte: Byte,
    accepted: seq<Byte>, consumed: seq<Byte>, fired: nat)

  /** Between the tail increment and the status store. */
  predicate InWindow(m: Machine) {
    m.pc == Wrap || m.pc == Compare || m.pc == Store
  }

  /** Indices stay in range under every schedule, safe or not. */
  predicate InRange(m: Machine) {
    m.ring.head < FIFO_SIZE && (m.ring.tail < FIFO_SIZE || (m.pc == Wrap && m.ring.tail == FIFO_SIZE))
  }

  function ReaderStep(m: Machine): (n: Machine)
    requires InRange(m)
    ensures InRange(n)
  {
    match m.pc
    case Idle => m.(pc := Check)
    case Check => m.(pc := if m.ring.status != EMPTY then Load else Idle)
    case Load => m.(byte := m.ring.buf[m.ring.tail], pc := Increment)
    case Increment => m.(ring := m.ring.(tail := m.ring.tail + 1), consumed := m.consumed + [m.byte], fired := 0, pc := Wrap)
    case Wrap => m.(ring := m.ring.(tail := if m.ring.tail == FIFO_SIZE then 0 else m.ring.tail), pc := Compare)
    case Compare => m.(pc := if m.ring.tail == m.ring.head then Store else Idle)
    case Store => m.(ring := m.ring.(status := EMPTY), pc := Idle)
  }

  /** ISR(USART1_RX_vect) */
  function Interrupt(m: Machine, b: Byte): (n: Machine)
    requires InRange(m)
    ensures InRange(n)
  {
    var (ring, ok) := RingWrite(m.ring, b);
    if ok then m.(ring := ring, accepted := m.accepted + [b], fired := m.fired + 1) else m
  }

  // ---- the invariant ----

  function Pending(m: Machine): int {
    |m.accepted| - |m.consumed|
  }

  /** Where the next byte to read is, the tail being one too far before it wraps around. */
  function Front(m: Machine): nat {
    if m.ring.tail == FIFO_SIZE then 0 else m.ring.tail
  }

  /** Consumed bytes and bytes in the ring, oldest first, are together the accepted bytes. */
  predicate Conserved(m: Machine) {
    && InRange(m) && 0 <= Pending(m) <= FIFO_SIZE
    && m.ring.head == (Front(m) + Pending(m)) % FIFO_SIZE
    && m.accepted == m.consumed + Around(m.ring.buf, Front(m), Pending(m))
  }

  /** What the status says about the number of bytes pending. EMPTY may be behind by as many
      bytes as interrupts were accepted in the last window. */
  predicate StatusSound(m: Machine) {
    var p := Pending(m);
    if InWindow(m) then m.ring.status != EMPTY && p < FIFO_SIZE && (m.ring.status == READY ==> p < FIFO_SIZE - 1 + m.fired)
                        && (m.pc == Store ==> p <= m.fired) && (m.ring.status == FULL ==> m.fired == 0)
    else
      && (m.pc == Load || m.pc == Increment ==> m.ring.status != EMPTY)
      && (m.ring.status == EMPTY ==> p < FIFO_SIZE && p <= m.fired)
      && (m.ring.status == READY ==> 0 < p < FIFO_SIZE)
      && (m.ring.status == FULL ==> 0 < p)
  }

  predicate Inv(m: Machine) {
    && Conserved(m) && StatusSound(m)
    && (m.pc == Increment ==> m.byte == m.ring.buf[m.ring.tail])
  }

  /** An interrupt inside the window must not fill the ring, unless it is rejected anyway. */
  predicate RoomInWindow(m: Machine) {
    InWindow(m) && m.ring.status != FULL ==> Pending(m) + 1 < FIFO_SIZE
  }

  lemma ReaderConserves(m: Machine)
    requires Conserved(m) && (m.pc == Increment ==> 0 < Pending(m) && m.byte == m.ring.buf[m.ring.tail])
    ensures Conserved(ReaderStep(m))
  {
    if m.pc == Increment {
      IncrementConserves(m);
    } else {
      hide Around;
    }
  }

  lemma IncrementConserves(m: Machine)
    requires Conserved(m) && m.pc == Increment && 0 < Pending(m) && m.byte == m.ring.buf[m.ring.tail]
    ensures Conserved(ReaderStep(m))
  {
    AroundPop(m.ring.buf, m.ring.tail, Pending(m));
    hide Around;
    assert m.accepted == m.consumed + [m.byte] + Around(m.ring.buf, Advance(m.ring.tail), Pending(m) - 1);
  }

  lemma ReaderKeepsInv(m: Machine)
    requires Inv(m)
    ensures Inv(ReaderStep(m))
  {
    ReaderConserves(m);
    hide Around;
  }

  lemma InterruptConserves(m: Machine, b: Byte)
    requires Conserved(m) && (m.ring.status != FULL ==> Pending(m) < FIFO_SIZE)
    ensures Conserved(Interrupt(m, b))
  {
    if m.ring.status != FULL {
      AroundPush(m.ring.buf, Front(m), Pending(m), b);
    }
    hide Around;
  }

  lemma InterruptKeepsInv(m: Machine, b: Byte)
    requires Inv(m) && RoomInWindow(m)
    ensures Inv(Interrupt(m, b))
  {
    InterruptConserves(m, b);
    hide Around;
  }

  // ---- schedules ----

  datatype Event = Reader | Received(b: Byte)

  function Step(m: Machine, e: Event): (n: Machine)
    requires InRange(m)
    ensures InRange(n)
  {
    match e
    case Reader => ReaderStep(m)
    case Received(b) => Interrupt(m, b)
  }

  function After(m: Machine, events: seq<Event>, n: nat): (r: Machine)
    requires InRange(m) && n <= |events|
    ensures InRange(r)
  {
    if n == 0 then m else Step(After(m, events, n - 1), events[n - 1])
  }

  /** No interrupt fills the ring between a tail increment and the status store. */
  ghost predicate RoomInEveryWindow(m: Machine, events: seq<Event>, n: nat)
    requires InRange(m) && n <= |events|
  {
    forall i :: 0 <= i < n && events[i].Received? ==> RoomInWindow(After(m, events, i))
  }

  /** Interrupt safety: under every interleaving of statements and any number of interrupts, none
      of which fills the ring inside a window, nothing is lost or reordered, and EMPTY hides at
      most the bytes accepted since the last tail increment. */
  lemma {:induction false} InterruptSafety(m: Machine, events: seq<Event>, n: nat)
    requires Inv(m) && n <= |events| && RoomInEveryWindow(m, events, n)
    ensures var r := After(m, events, n);
            && Inv(r) && r.accepted == r.consumed + Around(r.ring.buf, Front(r), Pending(r))
            && (r.ring.status == EMPTY ==> Pending(r) <= r.fired)
  {
    assert InRange(m);
    hide Inv, ReaderStep, Interrupt, RoomInWindow;
    if n != 0 {
      InterruptSafety(m, events, n - 1);
      match events[n - 1]
      case Reader => ReaderKeepsInv(After(m, events, n - 1));
      case Received(b) => InterruptKeepsInv(After(m, events, n - 1), b);
    }
    InvConserves(After(m, events, n));
  }

  lemma InvInRange(m: Machine)
    requires Inv(m)
    ensures InRange(m)
  {
    hide Around;
  }

  lemma InvConserves(m: Machine)
    requires Inv(m)
    ensures m.accepted == m.consumed + Around(m.ring.buf, Front(m), Pending(m))
    ensures m.ring.status == EMPTY ==> Pending(m) <= m.fired
  {
    hide Around;
  }

  /** Between a tail increment and the status store at most one interrupt is accepted. */
  ghost predicate OncePerWindow(m: Machine, events: seq<Event>, n: nat)
    requires InRange(m) && n <= |events|
  {
    forall i :: 0 <= i < n && events[i].Received? && InWindow(After(m, events, i)) ==>
      After(m, events, i).ring.status == FULL || After(m, events, i).fired == 0
  }

  /** At most one accepted byte is hidden behind EMPTY. */
  predicate HidesAtMostOne(m: Machine) {
    (InWindow(m) ==> m.fired <= 1) && (m.ring.status == EMPTY ==> Pending(m) <= 1)
  }

  lemma EventKeepsAll(m: Machine, e: Event)
    requires Inv(m) && HidesAtMostOne(m)
    requires e.Received? && InWindow(m) ==> m.ring.status == FULL || m.fired == 0
    ensures Inv(Step(m, e)) && HidesAtMostOne(Step(m, e))
    ensures e.Received? ==> RoomInWindow(m)
  {
    match e
    case Reader => ReaderKeepsInv(m); hide Around;
    case Received(b) => InterruptKeepsInv(m, b); hide Around;
  }

  /** One accepted interrupt per window never fills the ring, and EMPTY then hides at most one byte. */
  lemma {:induction false} OnceIsSafe(m: Machine, events: seq<Event>, n: nat)
    requires Inv(m) && HidesAtMostOne(m) && n <= |events| && OncePerWindow(m, events, n)
    ensures RoomInEveryWindow(m, events, n)
    ensures var r := After(m, events, n); Inv(r) && (r.ring.status == EMPTY ==> Pending(r) <= 1)
    ensures HidesAtMostOne(After(m, events, n))
  {
    assert InRange(m);
    hide Inv, Step, RoomInWindow;
    if n != 0 {
      OnceIsSafe(m, events, n - 1);
      EventKeepsAll(After(m, events, n - 1), events[n - 1]);
    }
  }

  /** A fresh or drained ring starts a run, wherever its indices are. */
  lemma DrainedIsSafe(r: Ring)
    requires Consistent(r) && r.status == EMPTY
    ensures var m := Machine(r, Idle, 0, [], [], 0); Inv(m) && HidesAtMostOne(m)
  {
  }

  /** The next accepted byte makes a hidden one visible again. */
  lemma NextWriteReveals(m: Machine, b: Byte)
    requires Inv(m) && m.ring.status == EMPTY
    ensures var n := Interrupt(m, b); Inv(n) && n.ring.status != EMPTY && Pending(n) == Pending(m) + 1
  {
    InterruptKeepsInv(m, b);
    hide Around;
  }

  // ---- exactly when an interrupt inside the window does harm ----

  /** The reader finishes its call undisturbed. */
  function Finish(m: Machine): (n: Machine)
    requires InRange(m) && InWindow(m)
    ensures InRange(n)
  {
    var a := if m.pc == Wrap then ReaderStep(m) else m;
    var b := if a.pc == Compare then ReaderStep(a) else a;
    if b.pc == Store then ReaderStep(b) else b
  }

  /** An accepted interrupt inside the window leaves the ring sound at the end of the call if
      and only if it does not fill the ring. */
  lemma WindowInterruptIff(m: Machine, b: Byte)
    requires Inv(m) && InWindow(m) && m.ring.status != FULL
    ensures Inv(Finish(Interrupt(m, b))) <==> Pending(m) + 1 < FIFO_SIZE
  {
    var n := Interrupt(m, b);
    if Pending(m) + 1 < FIFO_SIZE {
      InterruptKeepsInv(m, b);
      var x := if n.pc == Wrap then ReaderStep(n) else n;
      ReaderKeepsInv(n);
      ReaderKeepsInv(x);
      ReaderKeepsInv(if x.pc == Compare then ReaderStep(x) else x);
    } else {
      FillingEmpties(m, b);
    }
    hide Around;
  }

  /** When it does fill the ring, 64 unread bytes are reported as none ... */
  lemma FillingEmpties(m: Machine, b: Byte)
    requires Inv(m) && InWindow(m) && m.ring.status != FULL && Pending(m) + 1 == FIFO_SIZE
    ensures var n := Finish(Interrupt(m, b));
            n.ring.status == EMPTY && Pending(n) == FIFO_SIZE && Conserved(n) && n.pc == Idle
  {
    InterruptConserves(m, b);
    hide Around;
  }

  /** ... and the next one received takes the place of the oldest of them. */
  lemma FillingOverwrites(m: Machine, b: Byte, c: Byte)
    requires Inv(m) && InWindow(m) && m.ring.status != FULL && Pending(m) + 1 == FIFO_SIZE
    ensures var n := Finish(Interrupt(m, b));
            var o := Interrupt(n, c);
            RingRead(o.ring).1 == c && n.ring.buf[n.ring.tail] == n.accepted[|n.consumed|]
  {
    FillingEmpties(m, b);
    var n := Finish(Interrupt(m, b));
    AroundPop(n.ring.buf, n.ring.tail, FIFO_SIZE);
    hide Around;
  }

  // ---- how that state is reached ----

  function Burst(bs: seq<Byte>): (events: seq<Event>)
    ensures |events| == |bs|
  {
    seq(|bs|, i requires 0 <= i < |bs| => Received(bs[i]))
  }

  lemma {:induction false} AfterConcat(m: Machine, a: seq<Event>, b: seq<Event>, n: nat)
    requires InRange(m) && n <= |b|
    ensures After(m, a + b, |a| + n) == After(After(m, a, |a|), b, n)
  {
    hide Step, InRange;
    if n == 0 {
      AfterPrefix(m, a, b, |a|);
    } else {
      AfterConcat(m, a, b, n - 1);
    }
  }

  lemma {:induction false} AfterPrefix(m: Machine, a: seq<Event>, b: seq<Event>, n: nat)
    requires InRange(m) && n <= |a|
    ensures After(m, a + b, n) == After(m, a, n)
  {
    hide Step, InRange;
    if n != 0 {
      AfterPrefix(m, a, b, n - 1);
    }
  }

  /** An idle reader with `p` bytes to read and nothing hidden */
  predicate Waiting(m: Machine, p: nat) {
    Inv(m) && m.pc == Idle && Pending(m) == p && (0 < p ==> m.ring.status == READY)
  }

  lemma {:induction false} BurstFills(m: Machine, bs: seq<Byte>, n: nat)
    requires Waiting(m, 0) && n <= |bs| < FIFO_SIZE
    ensures Waiting(After(m, Burst(bs), n), n)
  {
    assert InRange(m);
    hide Waiting, Interrupt;
    if n != 0 {
      BurstFills(m, bs, n - 1);
      WaitingGrows(After(m, Burst(bs), n - 1), n - 1, bs[n - 1]);
    }
  }

  lemma WaitingGrows(m: Machine, p: nat, b: Byte)
    requires Waiting(m, p) && p + 1 < FIFO_SIZE
    ensures Waiting(Interrupt(m, b), p + 1)
  {
    InterruptKeepsInv(m, b);
    hide Around;
  }

  /** From every empty ring: 63 bytes arrive, the reader takes one as far as the tail increment,
      one more byte arrives. The next one will fill the ring inside the window. */
  lemma FillingIsReached(r: Ring, bs: seq<Byte>, x: Byte)
    requires Consistent(r) && r.status == EMPTY && |bs| == FIFO_SIZE - 1
    ensures var events := Burst(bs) + [Reader, Reader, Reader, Reader, Received(x)];
            var m := After(Machine(r, Idle, 0, [], [], 0), events, |events|);
            Inv(m) && InWindow(m) && m.ring.status != FULL && Pending(m) + 1 == FIFO_SIZE
  {
    var m, tail := Machine(r, Idle, 0, [], [], 0), [Reader, Reader, Reader, Reader, Received(x)];
    DrainedIsSafe(r);
    BurstFills(m, bs, |bs|);
    AfterConcat(m, Burst(bs), tail, |tail|);
    ReaderTakesOne(After(m, Burst(bs), |bs|), tail, x);
    hide Waiting, After, Inv;
  }

  lemma ReaderTakesOne(m: Machine, tail: seq<Event>, x: Byte)
    requires Waiting(m, FIFO_SIZE - 1) && tail == [Reader, Reader, Reader, Reader, Received(x)]
    ensures var n := After(m, tail, 5);
            Inv(n) && InWindow(n) && n.ring.status != FULL && Pending(n) + 1 == FIFO_SIZE
  {
    var m1 := ReaderStep(m);
    var m2 := ReaderStep(m1);
    var m3 := ReaderStep(m2);
    var m4 := ReaderStep(m3);
    ReaderKeepsInv(m);
    ReaderKeepsInv(m1);
    ReaderKeepsInv(m2);
    ReaderKeepsInv(m3);
    InterruptKeepsInv(m4, x);
    hide Around, Inv, ReaderStep, Interrupt;
    assert After(m, tail, 0) == m;
    assert After(m, tail, 1) == m1;
    assert After(m, tail, 2) == m2;
    assert After(m, tail, 3) == m3;
    assert After(m, tail, 4) == m4;
    assert After(m, tail, 5) == Interrupt(m4, x);
  }

  // ---- exactly when a byte is hidden behind EMPTY ----

  /** A byte that arrives inside a window is hidden at the end of the call if and only if the
      reader is about to store EMPTY. */
  lemma WindowHidesIff(m: Machine, b: Byte)
    requires Inv(m) && InWindow(m) && m.ring.status != FULL && m.fired == 0
    ensures var n := Finish(Interrupt(m, b));
            n.ring.status == EMPTY && Pending(n) == 1 <==> m.pc == Store
  {
    InterruptConserves(m, b);
    hide Around;
  }

  /** The reader alone never gets past an EMPTY status: elm_read polls it for ever, ... */
  lemma {:induction false} ReaderWaits(m: Machine, n: nat)
    requires InRange(m) && m.ring.status == EMPTY && (m.pc == Idle || m.pc == Check)
    ensures var r := After(m, seq(n, _ => Reader), n);
            r.consumed == m.consumed && r.ring == m.ring && (r.pc == Idle || r.pc == Check)
  {
    if n != 0 {
      ReaderWaits(m, n - 1);
      var polls := seq(n - 1, _ => Reader);
      assert polls + [Reader] == seq(n, _ => Reader);
      AfterPrefix(m, polls, [Reader], n - 1);
    }
  }

  /** ... so a byte that arrives just before the store, a prompt say, is accepted but not read
      until another one arrives. */
  lemma HiddenByteWaits(m: Machine, b: Byte, n: nat)
    requires Inv(m) && m.pc == Store && m.ring.status != FULL && m.fired == 0
    ensures var h := Finish(Interrupt(m, b));
            var r := After(h, seq(n, _ => Reader), n);
            h.accepted == m.accepted + [b] && h.consumed == m.accepted && r.consumed == m.accepted
  {
    WindowHidesIff(m, b);
    ReaderWaits(Finish(Interrupt(m, b)), n);
    hide Around, After;
    assert Pending(m) == 0 && m.accepted == m.consumed + Around(m.ring.buf, Front(m), 0);
  }

  // ---- whole schedules: a ring once filled inside a window is never sound again ----

  /** At least 64 accepted bytes have not been consumed, and the reader gets none of the last 64:
      with just 64 it is in the window or finds the ring empty. */
  predicate Lost(m: Machine) {
    && InRange(m) && FIFO_SIZE <= Pending(m)
    && m.ring.head == (Front(m) + Pending(m)) % FIFO_SIZE
    && (Pending(m) == FIFO_SIZE ==> InWindow(m) || (m.ring.status == EMPTY && (m.pc == Idle || m.pc == Check)))
  }

  lemma LostIsUnsound(m: Machine)
    requires Lost(m)
    ensures !Inv(m)
  {
    hide Around;
  }

  lemma ReaderStaysLost(m: Machine)
    requires Lost(m)
    ensures Lost(ReaderStep(m))
  {
    hide Around;
    if m.pc == Compare && Pending(m) == FIFO_SIZE {
      assert m.ring.head == m.ring.tail;
    }
  }

  lemma InterruptStaysLost(m: Machine, b: Byte)
    requires Lost(m)
    ensures Lost(Interrupt(m, b))
  {
    hide Around;
  }

  lemma FillingLoses(m: Machine, b: Byte)
    requires Inv(m) && !RoomInWindow(m)
    ensures Lost(Interrupt(m, b))
  {
    InterruptConserves(m, b);
    hide Around;
  }

  lemma {:induction false} SoundOrLost(m: Machine, events: seq<Event>, n: nat)
    requires Inv(m) && n <= |events|
    ensures if RoomInEveryWindow(m, events, n) then Inv(After(m, events, n)) else Lost(After(m, events, n))
  {
    assert InRange(m);
    hide Inv, Lost, ReaderStep, Interrupt, RoomInWindow;
    if n != 0 {
      SoundOrLost(m, events, n - 1);
      var l := After(m, events, n - 1);
      RoomUpTo(m, events, n);
      hide RoomInEveryWindow;
      match events[n - 1]
      case Reader => StepEither(l, Reader);
      case Received(b) => StepEither(l, Received(b));
    }
  }

  lemma RoomUpTo(m: Machine, events: seq<Event>, n: nat)
    requires InRange(m) && 0 < n <= |events|
    ensures RoomInEveryWindow(m, events, n) <==>
            RoomInEveryWindow(m, events, n - 1) && (events[n - 1].Received? ==> RoomInWindow(After(m, events, n - 1)))
  {
    hide RoomInWindow, After, InRange;
  }

  lemma StepEither(m: Machine, e: Event)
    requires InRange(m)
    ensures Lost(m) ==> Lost(Step(m, e))
    ensures Inv(m) ==> if e.Received? ==> RoomInWindow(m) then Inv(Step(m, e)) else Lost(Step(m, e))
  {
    hide Inv, Lost, ReaderStep, Interrupt, RoomInWindow;
    match e {
      case Reader =>
        if Lost(m) { ReaderStaysLost(m); }
        if Inv(m) { ReaderKeepsInv(m); }
      case Received(b) =>
        if Lost(m) { InterruptStaysLost(m, b); }
        if Inv(m) {
          if RoomInWindow(m) {
            InterruptKeepsInv(m, b);
          } else {
            FillingLoses(m, b);
          }
        }
    }
  }

  /** Over every schedule the ring is sound at the end if and only if no interrupt has filled it
      inside a window; otherwise at least 64 accepted bytes stay behind for ever. */
  lemma SafetyIff(m: Machine, events: seq<Event>, n: nat)
    requires Inv(m) && n <= |events|
    ensures Inv(After(m, events, n)) <==> RoomInEveryWindow(m, events, n)
    ensures !RoomInEveryWindow(m, events, n) ==> FIFO_SIZE <= Pending(After(m, events, n))
  {
    SoundOrLost(m, events, n);
    if !RoomInEveryWindow(m, events, n) {
      LostIsUnsound(After(m, events, n));
    }
    hide Inv;
  }
}
