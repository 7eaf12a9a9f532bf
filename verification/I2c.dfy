/** src/i2c.c: one I2C master transaction (UM10204, sections 3.1.4 to 3.1.6 and 3.1.10). The
    slave is an arbitrary oracle: what the status and data registers show after any trace. */
module I2c {
  import opened Bytes

  datatype Event =
    | Start               // START, or a repeated START
    | Sent(b: Byte)       // eight bits from the master
    | Received(ack: bool) // eight bits to the master, acknowledged or not
    | Stop

  type Trace = seq<Event>

  /** Contents of TWSR and TWDR once the last event of a trace has finished */
  datatype Registers = Registers(twsr: Byte, twdr: Byte)

  type Slave = Trace -> Registers

  /** TWSR & 0xf8 */
  function Status(o: Slave, t: Trace): Byte {
    o(t).twsr / 8 * 8
  }

  // status codes of the TWI hardware
  const START_OK: Byte := 0x08
  const REPEATED_START_OK: Byte := 0x10
  const SLA_W_ACK: Byte := 0x18
  const SLA_W_NAK: Byte := 0x20
  const DATA_W_ACK: Byte := 0x28
  const DATA_W_NAK: Byte := 0x30
  const SLA_R_ACK: Byte := 0x40
  const SLA_R_NAK: Byte := 0x48
  const DATA_R_ACK: Byte := 0x50
  const DATA_R_NAK: Byte := 0x58

  datatype Phase = Going | Naked | Failed

  /** A transaction under way: what is on the bus, the last status, the bytes read so far. */
  datatype State = State(trace: Trace, status: Byte, read: seq<Byte>, phase: Phase)

  /** One event that must be answered with `good`; the answer `nak` makes the master stop. */
  function Act(o: Slave, s: State, e: Event, good: Byte, nak: Byte): (t: State)
    ensures t.read == s.read
  {
    if s.phase != Going then s
    else
      var t := s.trace + [e];
      var st := Status(o, t);
      if st == good then s.(trace := t, status := st)
      else if st == nak then s.(trace := t + [Stop], status := st, phase := Naked)
      else s.(trace := t, status := st, phase := Failed)
  }

  /** A byte received; only an expected answer stores the data register. */
  function Take(o: Slave, s: State, ack: bool): State {
    if s.phase != Going then s
    else
      var good := if ack then DATA_R_ACK else DATA_R_NAK;
      var t := Act(o, s, Received(ack), good, good);
      if t.phase == Going then t.(read := s.read + [o(t.trace).twdr]) else t
  }

  function SendAll(o: Slave, s: State, bs: seq<Byte>, n: nat): State
    requires n <= |bs|
  {
    if n == 0 then s else Act(o, SendAll(o, s, bs, n - 1), Sent(bs[n - 1]), DATA_W_ACK, DATA_W_NAK)
  }

  function TakeAll(o: Slave, s: State, n: nat): State {
    if n == 0 then s else Take(o, TakeAll(o, s, n - 1), true)
  }

  function Clear(s: State): State {
    if s.phase == Going then s.(status := 0) else s
  }

  function WriteAddress(addr: Byte): Byte { addr - addr % 2 }

  function ReadAddress(addr: Byte): Byte { addr - addr % 2 + 1 }

  /** Nothing in the source stops a START from being answered with its own NAK code. */
  function Begin(o: Slave, s: State, good: Byte): State {
    Act(o, s, Start, good, good)
  }

  function WritePart(o: Slave, s: State, addr: Byte, ap: seq<Byte>, wp: seq<Byte>): State {
    if ap == [] && wp == [] then s
    else
      var s1 := Act(o, Begin(o, s, START_OK), Sent(WriteAddress(addr)), SLA_W_ACK, SLA_W_NAK);
      Clear(SendAll(o, SendAll(o, s1, ap, |ap|), wp, |wp|))
  }

  function ReadPart(o: Slave, s: State, addr: Byte, rn: nat, wrote: bool): State {
    if rn == 0 then s
    else
      var s1 := Act(o, Begin(o, s, if wrote then REPEATED_START_OK else START_OK), Sent(ReadAddress(addr)), SLA_R_ACK, SLA_R_NAK);
      Clear(Take(o, TakeAll(o, s1, rn - 1), false))
  }

  /** i2c_io from an idle bus with history `trace` */
  function Transaction(o: Slave, trace: Trace, addr: Byte, ap: seq<Byte>, wp: seq<Byte>, rn: nat): State {
    var wrote := ap != [] || wp != [];
    var s := ReadPart(o, WritePart(o, State(trace, 0, [], Going), addr, ap, wp), addr, rn, wrote);
    if s.phase == Going && (wrote || rn > 0) then s.(trace := s.trace + [Stop]) else s
  }

  // ---- the author's claim: how the bytes are split over the two arrays does not matter ----

  lemma {:induction false} SendAllSplit(o: Slave, s: State, a: seq<Byte>, w: seq<Byte>, n: nat)
    requires n <= |w|
    ensures SendAll(o, SendAll(o, s, a, |a|), w, n) == SendAll(o, s, a + w, |a| + n)
  {
    hide Act;
    if n == 0 {
      SendAllPrefix(o, s, a, w, |a|);
    } else {
      SendAllSplit(o, s, a, w, n - 1);
      assert (a + w)[|a| + n - 1] == w[n - 1];
    }
  }

  lemma {:induction false} SendAllPrefix(o: Slave, s: State, a: seq<Byte>, w: seq<Byte>, n: nat)
    requires n <= |a|
    ensures SendAll(o, s, a, n) == SendAll(o, s, a + w, n)
  {
    hide Act;
    if n != 0 {
      SendAllPrefix(o, s, a, w, n - 1);
    }
  }

  /** For every slave and all arrays: same trace, same bytes read, same status. */
  lemma Concatenation(o: Slave, trace: Trace, addr: Byte, a: seq<Byte>, w: seq<Byte>, rn: nat)
    ensures Transaction(o, trace, addr, a, w, rn) == Transaction(o, trace, addr, a + w, [], rn)
    ensures Transaction(o, trace, addr, a, w, rn) == Transaction(o, trace, addr, [], a + w, rn)
  {
    var s1 := Act(o, Begin(o, State(trace, 0, [], Going), START_OK), Sent(WriteAddress(addr)), SLA_W_ACK, SLA_W_NAK);
    SendAllSplit(o, s1, a, w, |w|);
    hide Act, ReadPart;
    assert SendAll(o, s1, [], 0) == s1;
    assert (a != [] || w != []) <==> a + w != [];
    assert SendAll(o, SendAll(o, s1, a + w, |a + w|), [], 0) == SendAll(o, s1, a + w, |a + w|);
  }

  // ---- the transaction as a script ----

  /** One event, the answer it must get, and the answer that makes the master stop. */
  datatype Turn = Turn(event: Event, good: Byte, nak: Byte)

  function Do(o: Slave, s: State, turn: Turn): State {
    match turn.event
    case Received(ack) => Take(o, s, ack)
    case _ => Act(o, s, turn.event, turn.good, turn.nak)
  }

  function Follow(o: Slave, s: State, script: seq<Turn>): State {
    if script == [] then s else Do(o, Follow(o, s, script[..|script| - 1]), script[|script| - 1])
  }

  function SendTurns(bs: seq<Byte>): (t: seq<Turn>)
    ensures |t| == |bs|
  {
    seq(|bs|, i requires 0 <= i < |bs| => Turn(Sent(bs[i]), DATA_W_ACK, DATA_W_NAK))
  }

  function TakeTurn(ack: bool): Turn {
    var good := if ack then DATA_R_ACK else DATA_R_NAK;
    Turn(Received(ack), good, good)
  }

  function TakeTurns(n: nat): seq<Turn> {
    seq(n, _ => TakeTurn(true))
  }

  function WriteScript(addr: Byte, out: seq<Byte>): seq<Turn> {
    if out == [] then []
    else [Turn(Start, START_OK, START_OK), Turn(Sent(WriteAddress(addr)), SLA_W_ACK, SLA_W_NAK)] + SendTurns(out)
  }

  function ReadScript(addr: Byte, rn: nat, wrote: bool): seq<Turn> {
    var good := if wrote then REPEATED_START_OK else START_OK;
    if rn == 0 then []
    else [Turn(Start, good, good), Turn(Sent(ReadAddress(addr)), SLA_R_ACK, SLA_R_NAK)] + TakeTurns(rn - 1) + [TakeTurn(false)]
  }

  /** Everything that the master wants to do before the STOP */
  function Script(addr: Byte, out: seq<Byte>, rn: nat): seq<Turn> {
    WriteScript(addr, out) + ReadScript(addr, rn, out != [])
  }

  /** Equal but for the last status of a transaction that is going on */
  predicate Alike(s: State, t: State) {
    s == t || (s.phase == Going && s == t.(status := s.status))
  }

  lemma DoAlike(o: Slave, s: State, t: State, turn: Turn)
    requires Alike(s, t)
    ensures Alike(Do(o, s, turn), Do(o, t, turn))
  {
    hide Status;
  }

  lemma {:induction false} FollowAlike(o: Slave, s: State, t: State, script: seq<Turn>)
    requires Alike(s, t)
    ensures Alike(Follow(o, s, script), Follow(o, t, script))
  {
    hide Alike, Do;
    if script != [] {
      FollowAlike(o, s, t, script[..|script| - 1]);
      DoAlike(o, Follow(o, s, script[..|script| - 1]), Follow(o, t, script[..|script| - 1]), script[|script| - 1]);
    }
  }

  lemma {:induction false} FollowConcat(o: Slave, s: State, a: seq<Turn>, b: seq<Turn>)
    ensures Follow(o, s, a + b) == Follow(o, Follow(o, s, a), b)
    decreases |b|
  {
    hide Do;
    if b == [] {
      assert a + b == a;
    } else {
      FollowConcat(o, s, a, b[..|b| - 1]);
      assert (a + b)[..|a + b| - 1] == a + b[..|b| - 1];
    }
  }

  lemma FollowOne(o: Slave, s: State, turn: Turn)
    ensures Follow(o, s, [turn]) == Do(o, s, turn)
  {
    assert [turn][..0] == [] && Follow(o, s, []) == s;
  }

  lemma FollowTwo(o: Slave, s: State, x: Turn, y: Turn)
    ensures Follow(o, s, [x, y]) == Do(o, Do(o, s, x), y)
  {
    assert [x] + [y] == [x, y];
    FollowConcat(o, s, [x], [y]);
    FollowOne(o, s, x);
    FollowOne(o, Do(o, s, x), y);
    hide Do, Follow;
  }

  lemma {:induction false} SendAllFollows(o: Slave, s: State, bs: seq<Byte>, n: nat)
    requires n <= |bs|
    ensures SendAll(o, s, bs, n) == Follow(o, s, SendTurns(bs)[..n])
  {
    hide Act;
    if n != 0 {
      SendAllFollows(o, s, bs, n - 1);
      assert SendTurns(bs)[..n][..n - 1] == SendTurns(bs)[..n - 1];
    }
  }

  lemma {:induction false} TakeAllFollows(o: Slave, s: State, n: nat)
    ensures TakeAll(o, s, n) == Follow(o, s, TakeTurns(n))
  {
    hide Take;
    if n != 0 {
      TakeAllFollows(o, s, n - 1);
      assert TakeTurns(n)[..n - 1] == TakeTurns(n - 1);
    }
  }

  lemma AllFollows(o: Slave, s: State, ap: seq<Byte>, wp: seq<Byte>)
    ensures SendAll(o, SendAll(o, s, ap, |ap|), wp, |wp|) == Follow(o, s, SendTurns(ap + wp))
  {
    var out := ap + wp;
    SendAllFollows(o, s, out, |out|);
    assert SendTurns(out)[..|out|] == SendTurns(out);
    SendAllSplit(o, s, ap, wp, |wp|);
    hide SendAll, Follow, SendTurns;
  }

  lemma WriteFollows(o: Slave, s: State, addr: Byte, ap: seq<Byte>, wp: seq<Byte>)
    requires s.phase == Going
    ensures Alike(WritePart(o, s, addr, ap, wp), Follow(o, s, WriteScript(addr, ap + wp)))
    ensures s.status == 0 && WritePart(o, s, addr, ap, wp).phase == Going ==> WritePart(o, s, addr, ap, wp).status == 0
  {
    var out := ap + wp;
    assert out == [] <==> ap == [] && wp == [];
    if out != [] {
      var x, y := Turn(Start, START_OK, START_OK), Turn(Sent(WriteAddress(addr)), SLA_W_ACK, SLA_W_NAK);
      FollowTwo(o, s, x, y);
      var s1 := Follow(o, s, [x, y]);
      FollowConcat(o, s, [x, y], SendTurns(out));
      AllFollows(o, s1, ap, wp);
    }
    hide Act, SendAll, Follow, SendTurns, WriteAddress;
  }

  lemma ReadFollows(o: Slave, s: State, addr: Byte, rn: nat, wrote: bool)
    ensures Alike(ReadPart(o, s, addr, rn, wrote), Follow(o, s, ReadScript(addr, rn, wrote)))
    ensures (s.phase == Going ==> s.status == 0) && ReadPart(o, s, addr, rn, wrote).phase == Going ==>
              ReadPart(o, s, addr, rn, wrote).status == 0
  {
    if rn != 0 {
      var good := if wrote then REPEATED_START_OK else START_OK;
      var x, y := Turn(Start, good, good), Turn(Sent(ReadAddress(addr)), SLA_R_ACK, SLA_R_NAK);
      FollowTwo(o, s, x, y);
      var s1 := Follow(o, s, [x, y]);
      FollowConcat(o, s, [x, y], TakeTurns(rn - 1));
      TakeAllFollows(o, s1, rn - 1);
      FollowConcat(o, s, [x, y] + TakeTurns(rn - 1), [TakeTurn(false)]);
      FollowOne(o, TakeAll(o, s1, rn - 1), TakeTurn(false));
    }
    hide Act, Take, TakeAll, Follow, TakeTurns, ReadAddress;
  }

  /** i2c_io follows the script, and ends a success with a STOP if there was anything to do. */
  lemma TransactionFollows(o: Slave, trace: Trace, addr: Byte, ap: seq<Byte>, wp: seq<Byte>, rn: nat)
    ensures var s := Transaction(o, trace, addr, ap, wp, rn);
            var script := Script(addr, ap + wp, rn);
            var t := Follow(o, State(trace, 0, [], Going), script);
            && s.phase == t.phase && s.read == t.read && (t.phase != Going ==> s == t)
            && (t.phase == Going ==> s.status == 0 && s.trace == t.trace + if script == [] then [] else [Stop])
  {
    var s0, out := State(trace, 0, [], Going), ap + wp;
    var wrote := ap != [] || wp != [];
    EmptyScripts(addr, ap, wp, rn);
    hide WritePart, ReadPart, Follow, WriteScript, ReadScript;
    var w, f := WritePart(o, s0, addr, ap, wp), Follow(o, s0, WriteScript(addr, out));
    WriteFollows(o, s0, addr, ap, wp);
    ReadFollows(o, w, addr, rn, wrote);
    FollowAlike(o, w, f, ReadScript(addr, rn, wrote));
    FollowConcat(o, s0, WriteScript(addr, out), ReadScript(addr, rn, wrote));
    var t := Follow(o, s0, Script(addr, out, rn));
    assert t.trace + [] == t.trace;
  }

  lemma EmptyScripts(addr: Byte, ap: seq<Byte>, wp: seq<Byte>, rn: nat)
    ensures var wrote := ap != [] || wp != [];
            && (wrote <==> ap + wp != []) && (WriteScript(addr, ap + wp) == [] <==> !wrote)
            && (ReadScript(addr, rn, wrote) == [] <==> rn == 0) && (Script(addr, ap + wp, rn) == [] <==> !wrote && rn == 0)
  {
    hide WriteAddress, ReadAddress, SendTurns, TakeTurns;
  }

  // ---- the language of traces ----

  function Sends(bs: seq<Byte>): Trace {
    seq(|bs|, i requires 0 <= i < |bs| => Sent(bs[i]))
  }

  function WriteFrame(addr: Byte, out: seq<Byte>): Trace {
    if out == [] then [] else [Start, Sent(WriteAddress(addr))] + Sends(out)
  }

  function Acked(n: nat): Trace {
    seq(n, _ => Received(true))
  }

  function ReadFrame(addr: Byte, rn: nat): Trace {
    if rn == 0 then [] else [Start, Sent(ReadAddress(addr))] + Acked(rn - 1) + [Received(false)]
  }

  /** The transaction as the bus specification draws it, up to the STOP. */
  function Body(addr: Byte, out: seq<Byte>, rn: nat): Trace {
    WriteFrame(addr, out) + ReadFrame(addr, rn)
  }

  /** The data register after each received byte of `body` */
  function Reads(o: Slave, trace: Trace, body: Trace): seq<Byte> {
    if body == [] then []
    else Reads(o, trace, body[..|body| - 1]) + if body[|body| - 1].Received? then [o(trace + body).twdr] else []
  }

  function Events(script: seq<Turn>): (t: Trace)
    ensures |t| == |script|
  {
    seq(|script|, i requires 0 <= i < |script| => script[i].event)
  }

  lemma BodyIsScript(addr: Byte, out: seq<Byte>, rn: nat)
    ensures Events(Script(addr, out, rn)) == Body(addr, out, rn)
  {
    WriteEvents(addr, out);
    ReadEvents(addr, rn, out != []);
    EventsConcat(WriteScript(addr, out), ReadScript(addr, rn, out != []));
    hide WriteScript, ReadScript, WriteFrame, ReadFrame, Events;
  }

  lemma WriteEvents(addr: Byte, out: seq<Byte>)
    ensures Events(WriteScript(addr, out)) == WriteFrame(addr, out)
  {
    hide WriteAddress;
  }

  lemma ReadEvents(addr: Byte, rn: nat, wrote: bool)
    ensures Events(ReadScript(addr, rn, wrote)) == ReadFrame(addr, rn)
  {
    hide ReadAddress;
  }

  lemma EventsConcat(a: seq<Turn>, b: seq<Turn>)
    ensures Events(a + b) == Events(a) + Events(b)
  {
  }

  /** The master itself never sends a STOP in between, awaits status 0 nowhere, and stops at a NAK only. */
  predicate Sound(turn: Turn) {
    && turn.event != Stop && turn.good != 0 && turn.nak != 0
    && (turn.nak == turn.good || turn.nak in [SLA_W_NAK, DATA_W_NAK, SLA_R_NAK])
    && (turn.event.Received? ==> turn == TakeTurn(turn.event.ack))
  }

  predicate AllSound(script: seq<Turn>) {
    forall i :: 0 <= i < |script| ==> Sound(script[i])
  }

  lemma ScriptIsSound(addr: Byte, out: seq<Byte>, rn: nat)
    ensures AllSound(Script(addr, out, rn))
  {
    hide WriteAddress, ReadAddress;
    assert AllSound(WriteScript(addr, out)) && AllSound(ReadScript(addr, rn, out != []));
    hide WriteScript, ReadScript, Sound;
  }

  /** `s` has come along `body`: all of it, or a part of it that a NAK and a STOP or another
      status has ended. */
  ghost predicate Along(o: Slave, s: State, trace: Trace, body: Trace) {
    match s.phase
    case Going => s.trace == trace + body && s.read == Reads(o, trace, body)
    case Naked =>
      && |trace| + 2 <= |s.trace| && s.trace[..|trace|] == trace && s.trace[|s.trace| - 1] == Stop
      && s.trace[|trace|..|s.trace| - 1] <= body
      && s.status in [SLA_W_NAK, DATA_W_NAK, SLA_R_NAK] && s.status == Status(o, s.trace[..|s.trace| - 1])
    case Failed =>
      && |trace| < |s.trace| && s.trace[..|trace|] == trace && s.trace[|trace|..] <= body
      && s.status == Status(o, s.trace)
  }

  /** An ended transaction stays where it ended. */
  lemma EndedAlong(o: Slave, s: State, trace: Trace, body: Trace, e: Event)
    requires Along(o, s, trace, body) && s.phase != Going
    ensures Along(o, s, trace, body + [e])
  {
    hide Status, Reads;
    assert body <= body + [e];
  }

  lemma DoAlong(o: Slave, s: State, trace: Trace, body: Trace, turn: Turn)
    requires Along(o, s, trace, body) && Sound(turn)
    ensures Along(o, Do(o, s, turn), trace, body + [turn.event])
  {
    if s.phase != Going {
      EndedAlong(o, s, trace, body, turn.event);
    } else {
      GoingAlong(o, s, trace, body, turn);
    }
    hide Along, Act, Sound;
  }

  lemma GoingAlong(o: Slave, s: State, trace: Trace, body: Trace, turn: Turn)
    requires Along(o, s, trace, body) && s.phase == Going && Sound(turn)
    ensures Along(o, Do(o, s, turn), trace, body + [turn.event])
  {
    hide Status;
    Slices(trace, body, turn.event);
    assert s.trace + [turn.event] == trace + body + [turn.event];
  }

  lemma Slices(trace: Trace, body: Trace, e: Event)
    ensures var t, grown := trace + body + [e], body + [e];
            && t == trace + grown && t[..|trace|] == trace && t[|trace|..] == grown && |t| == |trace| + |grown|
            && |t + [Stop]| == |t| + 1 && (t + [Stop])[|t|] == Stop && (t + [Stop])[..|t|] == t
            && (t + [Stop])[..|trace|] == trace && (t + [Stop])[|trace|..|t|] == grown
            && grown[..|body|] == body && grown[|body|] == e
  {
  }

  lemma {:induction false} FollowAlong(o: Slave, trace: Trace, script: seq<Turn>)
    requires AllSound(script)
    ensures Along(o, Follow(o, State(trace, 0, [], Going), script), trace, Events(script))
  {
    if script == [] {
      assert trace + [] == trace;
    } else {
      var n := |script| - 1;
      FollowAlong(o, trace, script[..n]);
      DoAlong(o, Follow(o, State(trace, 0, [], Going), script[..n]), trace, Events(script[..n]), script[n]);
      assert Events(script[..n]) + [script[n].event] == Events(script);
    }
    hide Along, Do, Sound;
  }

  /** Trace language. Success is the whole transaction and a STOP, nothing at all when there is
      nothing to do; every NAK exit is a part of it and one STOP; every other exit is a part of
      it without a STOP. */
  lemma TraceLanguage(o: Slave, trace: Trace, addr: Byte, ap: seq<Byte>, wp: seq<Byte>, rn: nat)
    ensures var s, body := Transaction(o, trace, addr, ap, wp, rn), Body(addr, ap + wp, rn);
            && Stop !in body
            && (s.phase == Going ==>
                  s.status == 0 && s.trace == trace + (if body == [] then [] else body + [Stop]) && s.read == Reads(o, trace, body))
            && (s.phase != Going ==> Along(o, s, trace, body))
  {
    var script, body := Script(addr, ap + wp, rn), Body(addr, ap + wp, rn);
    BodyIsScript(addr, ap + wp, rn);
    ScriptIsSound(addr, ap + wp, rn);
    TransactionFollows(o, trace, addr, ap, wp, rn);
    FollowAlong(o, trace, script);
    SoundEvents(script);
    WithStop(trace, body);
    assert |body| == |script|;
    hide Transaction, Follow, Script, Body, Reads, Events, AllSound, Status;
  }

  lemma WithStop(trace: Trace, body: Trace)
    ensures trace + body + [Stop] == trace + (body + [Stop]) && trace + body + [] == trace + body
    ensures body == [] ==> trace + body == trace + []
  {
  }

  lemma SoundEvents(script: seq<Turn>)
    requires AllSound(script)
    ensures Stop !in Events(script)
  {
  }

  /** A successful transaction reads exactly `rn` bytes. */
  lemma ReadsCount(o: Slave, trace: Trace, addr: Byte, out: seq<Byte>, rn: nat)
    ensures |Reads(o, trace, Body(addr, out, rn))| == rn
  {
    var w := WriteFrame(addr, out);
    NoReads(o, trace, w);
    if rn == 0 {
      assert w + ReadFrame(addr, rn) == w;
    } else {
      ReadFrameGrown(w, addr, rn);
      ReadFrameReads(o, trace, w, Sent(ReadAddress(addr)), rn);
    }
    hide WriteFrame, ReadFrame, Reads, Sends, Acked, ReadAddress;
  }

  lemma ReadFrameGrown(body: Trace, addr: Byte, rn: nat)
    requires rn > 0
    ensures body + [Start] + [Sent(ReadAddress(addr))] + Acked(rn - 1) + [Received(false)] == body + ReadFrame(addr, rn)
  {
    hide ReadAddress, Acked;
  }

  lemma ReadFrameReads(o: Slave, trace: Trace, w: Trace, address: Event, rn: nat)
    requires rn > 0 && Reads(o, trace, w) == [] && address.Sent?
    ensures |Reads(o, trace, w + [Start] + [address] + Acked(rn - 1) + [Received(false)])| == rn
  {
    hide Reads, Acked;
    OneMoreRead(o, trace, w, Start);
    OneMoreRead(o, trace, w + [Start], address);
    AckedReads(o, trace, w + [Start] + [address], rn - 1);
    OneMoreRead(o, trace, w + [Start] + [address] + Acked(rn - 1), Received(false));
  }

  lemma OneMoreRead(o: Slave, trace: Trace, body: Trace, e: Event)
    ensures |Reads(o, trace, body + [e])| == |Reads(o, trace, body)| + if e.Received? then 1 else 0
  {
    assert (body + [e])[..|body|] == body;
  }

  lemma {:induction false} NoReads(o: Slave, trace: Trace, body: Trace)
    requires forall i :: 0 <= i < |body| ==> !body[i].Received?
    ensures Reads(o, trace, body) == []
    decreases |body|
  {
    if body != [] {
      NoReads(o, trace, body[..|body| - 1]);
    }
  }

  lemma {:induction false} AckedReads(o: Slave, trace: Trace, head: Trace, n: nat)
    requires Reads(o, trace, head) == []
    ensures |Reads(o, trace, head + Acked(n))| == n
  {
    var t := head + Acked(n);
    if n == 0 {
      assert t == head;
    } else {
      AckedReads(o, trace, head, n - 1);
      assert t[..|t| - 1] == head + Acked(n - 1);
    }
  }

  // ---- the status, as the slave determines it ----

  /** The trace once the first `n` turns of the script are on the bus. */
  function SoFar(trace: Trace, script: seq<Turn>, n: nat): Trace
    requires n <= |script|
  {
    trace + Events(script)[..n]
  }

  /** The slave gives each of the first `n` events the answer it must get. */
  predicate Obliging(o: Slave, trace: Trace, script: seq<Turn>, n: nat)
    requires n <= |script|
  {
    forall i :: 1 <= i <= n ==> Status(o, SoFar(trace, script, i)) == script[i - 1].good
  }

  /** The first event that does not get its answer gets status `c`. */
  predicate FirstRefusal(o: Slave, trace: Trace, script: seq<Turn>, c: Byte) {
    exists n: nat :: n < |script| && Obliging(o, trace, script, n)
                     && Status(o, SoFar(trace, script, n + 1)) == c && c != script[n].good
  }

  lemma SoFarPrefix(trace: Trace, script: seq<Turn>, i: nat)
    requires i < |script|
    ensures SoFar(trace, script[..|script| - 1], i) == SoFar(trace, script, i)
  {
    assert Events(script[..|script| - 1])[..i] == Events(script)[..i];
  }

  lemma ObligingPrefix(o: Slave, trace: Trace, script: seq<Turn>, n: nat)
    requires n < |script|
    ensures Obliging(o, trace, script[..|script| - 1], n) <==> Obliging(o, trace, script, n)
  {
    var front := script[..|script| - 1];
    forall i: nat | i <= n ensures SoFar(trace, front, i) == SoFar(trace, script, i) {
      SoFarPrefix(trace, script, i);
    }
    hide Status, SoFar;
    assert Obliging(o, trace, script, n) ==> forall i :: 1 <= i <= n ==> Status(o, SoFar(trace, front, i)) == front[i - 1].good;
    assert Obliging(o, trace, front, n) ==> forall i :: 1 <= i <= n ==> Status(o, SoFar(trace, script, i)) == script[i - 1].good;
  }

  /** One more event: it decides only if every event before it got its answer. */
  lemma OneMoreAnswer(o: Slave, trace: Trace, script: seq<Turn>, c: Byte)
    requires script != []
    ensures var n := |script| - 1;
            && (Obliging(o, trace, script, n + 1) <==>
                Obliging(o, trace, script[..n], n) && Status(o, SoFar(trace, script, n + 1)) == script[n].good)
            && (FirstRefusal(o, trace, script, c) <==>
                FirstRefusal(o, trace, script[..n], c) ||
                (Obliging(o, trace, script[..n], n) && Status(o, SoFar(trace, script, n + 1)) == c && c != script[n].good))
  {
    var n, front := |script| - 1, script[..|script| - 1];
    forall k: nat | k <= n
      ensures Obliging(o, trace, front, k) <==> Obliging(o, trace, script, k)
      ensures SoFar(trace, front, k) == SoFar(trace, script, k)
    {
      ObligingPrefix(o, trace, script, k);
      SoFarPrefix(trace, script, k);
    }
    assert Obliging(o, trace, script, n + 1) <==>
           Obliging(o, trace, script, n) && Status(o, SoFar(trace, script, n + 1)) == script[n].good;
    hide Status, SoFar, Obliging;
    if FirstRefusal(o, trace, script, c) {
      var k: nat :| k < |script| && Obliging(o, trace, script, k)
                    && Status(o, SoFar(trace, script, k + 1)) == c && c != script[k].good;
      if k < n {
        assert Obliging(o, trace, front, k) && SoFar(trace, front, k + 1) == SoFar(trace, script, k + 1);
      }
    }
    if FirstRefusal(o, trace, front, c) {
      var k: nat :| k < n && Obliging(o, trace, front, k)
                    && Status(o, SoFar(trace, front, k + 1)) == c && c != front[k].good;
      assert Obliging(o, trace, script, k) && SoFar(trace, front, k + 1) == SoFar(trace, script, k + 1);
    }
  }

  lemma {:induction false} FollowStatus(o: Slave, trace: Trace, script: seq<Turn>, c: Byte)
    requires AllSound(script)
    ensures var s := Follow(o, State(trace, 0, [], Going), script);
            && (s.phase == Going <==> Obliging(o, trace, script, |script|))
            && (s.phase == Going ==> s.trace == trace + Events(script))
            && (s.phase != Going && s.status == c <==> FirstRefusal(o, trace, script, c))
  {
    if script == [] {
      assert trace + [] == trace;
    } else {
      var n := |script| - 1;
      FollowStatus(o, trace, script[..n], c);
      OneMoreAnswer(o, trace, script, c);
      assert Sound(script[n]);
      hide Do, Sound, Obliging, FirstRefusal, Status;
      DoStatus(o, Follow(o, State(trace, 0, [], Going), script[..n]), script[n]);
      AllSoFar(trace, script);
    }
    hide Do, Sound, Obliging, FirstRefusal, Events, SoFar, Status;
  }

  lemma AllSoFar(trace: Trace, script: seq<Turn>)
    requires script != []
    ensures var n := |script| - 1;
            trace + Events(script[..n]) + [script[n].event] == trace + Events(script) == SoFar(trace, script, n + 1)
  {
    var n := |script| - 1;
    assert Events(script[..n]) + [script[n].event] == Events(script) == Events(script)[..n + 1];
    hide Events;
  }

  lemma DoStatus(o: Slave, s: State, turn: Turn)
    requires Sound(turn)
    ensures var t := Do(o, s, turn);
            if s.phase != Going then t == s
            else var c := Status(o, s.trace + [turn.event]);
                 && (t.phase == Going <==> c == turn.good) && t.status == c
                 && (t.phase == Going ==> t.trace == s.trace + [turn.event])
  {
    hide Status;
  }

  /** What i2c_io returns, from the slave alone: 0 if every event gets its answer; otherwise the
      first answer that is not the awaited one. */
  lemma StatusIsFirstRefusal(o: Slave, trace: Trace, addr: Byte, ap: seq<Byte>, wp: seq<Byte>, rn: nat, c: Byte)
    ensures var s, script := Transaction(o, trace, addr, ap, wp, rn), Script(addr, ap + wp, rn);
            && (s.phase == Going <==> Obliging(o, trace, script, |script|))
            && (s.phase == Going ==> s.status == 0)
            && (s.phase != Going && s.status == c <==> FirstRefusal(o, trace, script, c))
  {
    TransactionFollows(o, trace, addr, ap, wp, rn);
    ScriptIsSound(addr, ap + wp, rn);
    FollowStatus(o, trace, Script(addr, ap + wp, rn), c);
    hide *;
  }

  /** So 0 is returned without success if and only if the first answer that is not the awaited
      one is 0 (a bus error, or nothing yet). */
  lemma ZeroStatusIff(o: Slave, trace: Trace, addr: Byte, ap: seq<Byte>, wp: seq<Byte>, rn: nat)
    ensures var s, script := Transaction(o, trace, addr, ap, wp, rn), Script(addr, ap + wp, rn);
            && Events(script) == Body(addr, ap + wp, rn)
            && (s.status == 0 && s.phase != Going <==>
                exists n: nat :: n < |script| && Obliging(o, trace, script, n) && Status(o, SoFar(trace, script, n + 1)) == 0)
  {
    hide Transaction, Script, Body, Obliging, Events, SoFar, Status, AllSound;
    BodyIsScript(addr, ap + wp, rn);
    StatusIsFirstRefusal(o, trace, addr, ap, wp, rn, 0);
    ScriptIsSound(addr, ap + wp, rn);
    NoneAwaitsZero(Script(addr, ap + wp, rn));
  }

  lemma NoneAwaitsZero(script: seq<Turn>)
    requires AllSound(script)
    ensures forall n :: 0 <= n < |script| ==> script[n].good != 0
  {
  }

  /** Such a slave: it never shows anything but 0. The byte asked for is not read. */
  lemma SilentSlave(addr: Byte)
    ensures var s := Transaction(_ => Registers(0, 0), [], addr, [], [], 1);
            s.status == 0 && s.phase == Failed && s.read == [] && s.trace == [Start]
  {
  }

  // ---- the transaction itself ----

  lemma ActStays(o: Slave, s: State, e: Event, good: Byte, nak: Byte)
    ensures s.phase != Going ==> Act(o, s, e, good, nak) == s
  {
  }

  /** After an exit nothing more happens. */
  lemma {:induction false} Stuck(o: Slave, s: State, bs: seq<Byte>, n: nat, k: nat)
    requires s.phase != Going && n <= |bs|
    ensures SendAll(o, s, bs, n) == s && TakeAll(o, s, k) == s
    decreases n + k
  {
    if n > 0 {
      Stuck(o, s, bs, n - 1, k);
    }
    if k > 0 {
      Stuck(o, s, bs, n, k - 1);
    }
  }

  lemma {:induction false} StuckSending(o: Slave, s: State, bs: seq<Byte>, n: nat, m: nat)
    requires n <= m <= |bs| && SendAll(o, s, bs, n).phase != Going
    ensures SendAll(o, s, bs, m) == SendAll(o, s, bs, n)
  {
    if n < m {
      StuckSending(o, s, bs, n, m - 1);
    }
  }

  lemma {:induction false} StuckTaking(o: Slave, s: State, n: nat, m: nat)
    requires n <= m && TakeAll(o, s, n).phase != Going
    ensures TakeAll(o, s, m) == TakeAll(o, s, n)
  {
    if n < m {
      StuckTaking(o, s, n, m - 1);
    }
  }

  lemma StuckTake(o: Slave, s: State)
    requires s.phase != Going
    ensures Take(o, s, false) == s
  {
  }

  /** The read bytes are at the front of the array, which is otherwise as it was. */
  ghost predicate Filled(now: seq<Byte>, was: seq<Byte>, read: seq<Byte>) {
    |read| <= |was| && now == read + was[|read|..]
  }

  lemma NothingFilled(was: seq<Byte>)
    ensures Filled(was, was, [])
  {
    assert was == [] + was[0..];
  }

  lemma FilledStep(was: seq<Byte>, read: seq<Byte>, more: seq<Byte>)
    requires |read| < |was| && |more| == |read| + 1 && more[..|read|] == read
    ensures forall now :: Filled(now, was, read) ==> Filled(now[|read| := more[|read|]], was, more)
  {
    var n := |read|;
    assert more == read + [more[n]];
    assert was[n..] == [was[n]] + was[n + 1..];
    forall now | Filled(now, was, read) ensures Filled(now[n := more[n]], was, more) {
      assert now[n := more[n]] == more + was[n + 1..];
    }
  }

  lemma StuckReading(o: Slave, s: State, addr: Byte, rn: nat, wrote: bool)
    requires s.phase != Going
    ensures ReadPart(o, s, addr, rn, wrote) == s
  {
    if rn > 0 {
      Stuck(o, s, [], 0, rn - 1);
    }
  }

  lemma {:induction false} SendingReadsNothing(o: Slave, s: State, bs: seq<Byte>, n: nat)
    requires n <= |bs|
    ensures SendAll(o, s, bs, n).read == s.read
  {
    if n > 0 {
      SendingReadsNothing(o, s, bs, n - 1);
    }
  }

  lemma WritingReadsNothing(o: Slave, s: State, addr: Byte, ap: seq<Byte>, wp: seq<Byte>)
    ensures WritePart(o, s, addr, ap, wp).read == s.read
  {
    if ap != [] || wp != [] {
      var s1 := Act(o, Begin(o, s, START_OK), Sent(WriteAddress(addr)), SLA_W_ACK, SLA_W_NAK);
      SendingReadsNothing(o, s1, ap, |ap|);
      SendingReadsNothing(o, SendAll(o, s1, ap, |ap|), wp, |wp|);
    }
  }

  /** The TWI hardware and the bus behind it */
  class Twi {
    const slave: Slave
    var trace: Trace

    constructor (slave: Slave)
      ensures this.slave == slave && trace == []
    {
      this.slave := slave;
      trace := [];
    }

    /** The block the source repeats: start the action, wait, compare the status; a NAK goes to
        the label nakstop and sends a STOP, any other unexpected status returns at once. */
    method Expect(e: Event, good: Byte, nak: Byte, ghost s: State) returns (status: Byte, go: bool)
      requires s.phase == Going && s.trace == trace
      modifies this
      ensures var t := Act(slave, s, e, good, nak); trace == t.trace && status == t.status && go == (t.phase == Going)
    {
      trace := trace + [e];
      status := slave(trace).twsr / 8 * 8;
      if status != good {
        if status == nak {
          trace := trace + [Stop];
        }
        return status, false;
      }
      go := true;
    }

    /** One of the two loops that write an array */
    method SendBytes(bs: seq<Byte>, ghost s: State) returns (status: Byte, go: bool)
      requires s.phase == Going && s.trace == trace
      modifies this
      ensures var t := SendAll(slave, s, bs, |bs|);
              trace == t.trace && go == (t.phase == Going) && (|bs| > 0 ==> status == t.status)
    {
      hide Act;
      go, status := true, 0;
      for i := 0 to |bs|
        invariant SendAll(slave, s, bs, i).phase == Going && SendAll(slave, s, bs, i).trace == trace && go
        invariant i > 0 ==> status == SendAll(slave, s, bs, i).status
      {
        status, go := Expect(Sent(bs[i]), DATA_W_ACK, DATA_W_NAK, SendAll(slave, s, bs, i));
        if !go {
          StuckSending(slave, s, bs, i + 1, |bs|);
          return status, false;
        }
      }
    }

    /** One byte received; it is stored only after the expected status. */
    method TakeByte(rp: array<Byte>, i: nat, ack: bool, ghost s: State) returns (status: Byte, go: bool)
      requires s.phase == Going && s.trace == trace && i < rp.Length
      modifies this, rp
      ensures var t := Take(slave, s, ack);
              && trace == t.trace && status == t.status && go == (t.phase == Going)
              && (go ==> |t.read| == |s.read| + 1 && t.read[..|s.read|] == s.read && rp[..] == old(rp[..])[i := t.read[|s.read|]])
              && (!go ==> t.read == s.read && rp[..] == old(rp[..]))
    {
      var good := if ack then DATA_R_ACK else DATA_R_NAK;
      status, go := Expect(Received(ack), good, good, s);
      if go {
        rp[i] := slave(trace).twdr;
      }
    }

    /** The loop that reads and acknowledges all but the last byte, and the last byte */
    method ReadBytes(rp: array<Byte>, n: nat, ghost s: State) returns (status: Byte, go: bool)
      requires s.phase == Going && s.trace == trace && s.read == [] && n < rp.Length
      modifies this, rp
      ensures var t := Take(slave, TakeAll(slave, s, n), false);
              && trace == t.trace && go == (t.phase == Going) && status == t.status
              && |t.read| <= n + 1 && Filled(rp[..], old(rp[..]), t.read)
    {
      ghost var was := rp[..];
      go, status := true, 0;
      hide Take, Filled;
      NothingFilled(was);
      for i := 0 to n
        invariant var t := TakeAll(slave, s, i);
                  t.phase == Going && t.trace == trace && |t.read| == i && Filled(rp[..], was, t.read)
      {
        status, go := TakeByte(rp, i, true, TakeAll(slave, s, i));
        if !go {
          StuckTaking(slave, s, i + 1, n);
          StuckTake(slave, TakeAll(slave, s, n));
          return status, false;
        }
        FilledStep(was, TakeAll(slave, s, i).read, TakeAll(slave, s, i + 1).read);
      }
      status, go := TakeByte(rp, n, false, TakeAll(slave, s, n));
      if go {
        FilledStep(was, TakeAll(slave, s, n).read, Take(slave, TakeAll(slave, s, n), false).read);
      }
    }

    /** The write half of i2c_io */
    method WriteArrays(deviceAddr: Byte, ap: seq<Byte>, wp: seq<Byte>, ghost s: State) returns (status: Byte, go: bool)
      requires s.phase == Going && s.trace == trace && (ap != [] || wp != [])
      modifies this
      ensures var t := WritePart(slave, s, deviceAddr, ap, wp);
              trace == t.trace && status == t.status && go == (t.phase == Going)
    {
      ghost var s1 := Begin(slave, s, START_OK);
      ghost var s2 := Act(slave, s1, Sent(WriteAddress(deviceAddr)), SLA_W_ACK, SLA_W_NAK);
      ghost var s3 := SendAll(slave, s2, ap, |ap|);
      Stuck(slave, if s2.phase == Going then s.(phase := Failed) else s2, ap, |ap|, 0);
      Stuck(slave, if s3.phase == Going then s.(phase := Failed) else s3, wp, |wp|, 0);
      assert s1.phase != Going ==> s2 == s1;
      hide SendAll;
      status, go := Expect(Start, START_OK, START_OK, s);
      if go {
        status, go := Expect(Sent(deviceAddr - deviceAddr % 2), SLA_W_ACK, SLA_W_NAK, s1);
      }
      hide Act;
      if go {
        var st;
        st, go := SendBytes(ap, s2);
        status := if |ap| > 0 then st else status;
      }
      if go {
        var st;
        st, go := SendBytes(wp, s3);
        status := if |wp| > 0 then st else status;
      }
      if go {
        status := 0;
      }
    }

    /** The read half of i2c_io */
    method ReadArray(deviceAddr: Byte, rp: array<Byte>, rn: nat, wrote: bool, ghost s: State) returns (status: Byte, go: bool)
      requires s.phase == Going && s.trace == trace && s.read == [] && 0 < rn <= rp.Length
      modifies this, rp
      ensures var t := ReadPart(slave, s, deviceAddr, rn, wrote);
              && trace == t.trace && status == t.status && go == (t.phase == Going)
              && |t.read| <= rn && Filled(rp[..], old(rp[..]), t.read)
    {
      var good := if wrote then REPEATED_START_OK else START_OK;
      var address: Byte := deviceAddr - deviceAddr % 2 + 1;
      ghost var s1 := Begin(slave, s, good);
      ghost var s2 := Act(slave, s1, Sent(ReadAddress(deviceAddr)), SLA_R_ACK, SLA_R_NAK);
      Stuck(slave, if s2.phase == Going then s.(phase := Failed) else s2, [], 0, rn - 1);
      ActStays(slave, s1, Sent(ReadAddress(deviceAddr)), SLA_R_ACK, SLA_R_NAK);
      assert s1.read == [] && s2.read == [];
      NothingFilled(rp[..]);
      hide Take, TakeAll, Filled, Act, ReadAddress, Status;
      status, go := Expect(Start, good, good, s);
      if go {
        status, go := Expect(Sent(address), SLA_R_ACK, SLA_R_NAK, s1);
      }
      if go {
        status, go := ReadBytes(rp, rn - 1, s2);
      }
      if go {
        status := 0;
      }
    }

    /** i2c_io */
    method I2cIo(deviceAddr: Byte, ap: seq<Byte>, wp: seq<Byte>, rp: array<Byte>, rn: nat) returns (status: Byte)
      requires rn <= rp.Length
      modifies this, rp
      ensures var s := Transaction(slave, old(trace), deviceAddr, ap, wp, rn);
              && trace == s.trace && status == s.status
              && |s.read| <= rn && Filled(rp[..], old(rp[..]), s.read)
    {
      hide Act, Take, SendAll, TakeAll, Filled;
      status := 0;
      NothingFilled(rp[..]);
      var wrote, go := false, true;
      ghost var s := State(trace, 0, [], Going);
      if |ap| > 0 || |wp| > 0 {
        wrote := true;
        WritingReadsNothing(slave, s, deviceAddr, ap, wp);
        status, go := WriteArrays(deviceAddr, ap, wp, s);
        s := WritePart(slave, s, deviceAddr, ap, wp);
        if !go {
          StuckReading(slave, s, deviceAddr, rn, wrote);
          return status;
        }
      }
      if rn > 0 {
        status, go := ReadArray(deviceAddr, rp, rn, wrote, s);
        s := ReadPart(slave, s, deviceAddr, rn, wrote);
        if !go {
          return status;
        }
      }
      if wrote || rn > 0 {
        trace := trace + [Stop];
      }
    }
  }
}
