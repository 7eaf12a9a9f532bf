/** src/i2c.c: the transaction of module I2c as the bus and the registers show it (UM10204, sections
    3.1.4 to 3.1.6 and 3.1.10). */
module I2cBus {
  import opened Bytes
  import opened I2c

  // ---- the events ----

  /** Events of the write half: START, the device's upper seven bits with the lowest bit 0, the bytes. */
  lemma WriteEventsAre(addr: Byte, out: seq<Byte>)
    ensures var w := WriteFrame(addr, out);
            && |w| == (if out == [] then 0 else |out| + 2)
            && (out != [] ==>
                  && w[0] == Start && w[1].Sent? && w[1].b % 2 == 0 && w[1].b / 2 == addr / 2
                  && forall i :: 0 <= i < |out| ==> w[i + 2] == Sent(out[i]))
  {
    if out != [] {
      var h := [Start, Sent(WriteAddress(addr))];
      assert WriteFrame(addr, out) == h + Sends(out);
      EvenAddress(addr);
    }
    hide WriteAddress;
  }

  lemma EvenAddress(addr: Byte)
    ensures WriteAddress(addr) % 2 == 0 && WriteAddress(addr) / 2 == addr / 2
    ensures ReadAddress(addr) % 2 == 1 && ReadAddress(addr) / 2 == addr / 2
  {
  }

  /** Events of the read half: START, the upper seven bits with the lowest bit 1, rn - 1 bytes
      acknowledged and one that is not. */
  lemma ReadEventsAre(addr: Byte, rn: nat)
    ensures var r := ReadFrame(addr, rn);
            && |r| == (if rn == 0 then 0 else rn + 2)
            && (rn > 0 ==>
                  && r[0] == Start && r[1].Sent? && r[1].b % 2 == 1 && r[1].b / 2 == addr / 2
                  && (forall i :: 2 <= i <= rn ==> r[i] == Received(true)) && r[rn + 1] == Received(false))
  {
    EvenAddress(addr);
    hide ReadAddress;
  }

  /** The transaction up to its STOP is the one half and then the other. */
  lemma BodyEvents(addr: Byte, out: seq<Byte>, rn: nat)
    ensures var body, w := Body(addr, out, rn), if out == [] then 0 else |out| + 2;
            && |body| == w + (if rn == 0 then 0 else rn + 2)
            && (out != [] ==>
                  && body[0] == Start && body[1].Sent? && body[1].b % 2 == 0 && body[1].b / 2 == addr / 2
                  && forall i :: 0 <= i < |out| ==> body[i + 2] == Sent(out[i]))
            && (rn > 0 ==>
                  && body[w] == Start && body[w + 1].Sent? && body[w + 1].b % 2 == 1 && body[w + 1].b / 2 == addr / 2
                  && (forall i :: w + 2 <= i <= w + rn ==> body[i] == Received(true)) && body[w + rn + 1] == Received(false))
  {
    hide *;
    WriteEventsAre(addr, out);
    ReadEventsAre(addr, rn);
    BothHalves(addr, out, rn);
    var body, w := Body(addr, out, rn), if out == [] then 0 else |out| + 2;
    if rn > 0 {
      assert body[w] == ReadFrame(addr, rn)[0] && body[w + 1] == ReadFrame(addr, rn)[1] && body[w + rn + 1] == ReadFrame(addr, rn)[rn + 1];
      forall i | w + 2 <= i <= w + rn ensures body[i] == Received(true) {
        assert body[i] == ReadFrame(addr, rn)[i - w];
      }
    }
  }

  lemma BothHalves(addr: Byte, out: seq<Byte>, rn: nat)
    ensures var body, f, r := Body(addr, out, rn), WriteFrame(addr, out), ReadFrame(addr, rn);
            && |body| == |f| + |r| && (forall i :: 0 <= i < |f| ==> body[i] == f[i])
            && (forall i :: |f| <= i < |body| ==> body[i] == r[i - |f|])
  {
    hide WriteFrame, ReadFrame;
  }

  // ---- the status codes ----

  /** The status that event `i` of a transaction with `n` bytes written must get: 08 after START, 10
      after a repeated START, 18 and 40 after the address, 28 after a byte written, 50 and 58 after a byte
      read. */
  function Awaited(n: nat, rn: nat, i: nat): Byte {
    var w := if n == 0 then 0 else n + 2;
    if i < w then (if i == 0 then 0x08 else if i == 1 then 0x18 else 0x28)
    else if i == w then (if n == 0 then 0x08 else 0x10)
    else if i == w + 1 then 0x40 else if i <= w + rn then 0x50 else 0x58
  }

  /** The status on which event `i` makes the master give up with a STOP: 20, 30 and 48, and none after a
      START or a byte read. */
  function Refusal(n: nat, rn: nat, i: nat): Byte {
    var w := if n == 0 then 0 else n + 2;
    if i < w then (if i == 0 then 0x08 else if i == 1 then 0x20 else 0x30)
    else if i == w then (if n == 0 then 0x08 else 0x10)
    else if i == w + 1 then 0x48 else if i <= w + rn then 0x50 else 0x58
  }

  lemma WriteCodes(addr: Byte, out: seq<Byte>, i: nat)
    requires out != [] && i < |out| + 2
    ensures var t := WriteScript(addr, out);
            |t| == |out| + 2 && t[i].good == (if i == 0 then 0x08 else if i == 1 then 0x18 else 0x28)
            && t[i].nak == (if i == 0 then 0x08 else if i == 1 then 0x20 else 0x30)
  {
    hide WriteAddress;
  }

  lemma ReadCodes(addr: Byte, rn: nat, wrote: bool, i: nat)
    requires 0 < rn && i < rn + 2
    ensures var t := ReadScript(addr, rn, wrote);
            && |t| == rn + 2
            && t[i].good == (if i == 0 then (if wrote then 0x10 else 0x08) else if i == 1 then 0x40 else if i <= rn then 0x50 else 0x58)
            && t[i].nak == (if i == 0 then (if wrote then 0x10 else 0x08) else if i == 1 then 0x48 else if i <= rn then 0x50 else 0x58)
  {
    hide ReadAddress;
  }

  lemma ScriptCodes(addr: Byte, out: seq<Byte>, rn: nat, i: nat)
    requires i < |Script(addr, out, rn)|
    ensures Script(addr, out, rn)[i].good == Awaited(|out|, rn, i) && Script(addr, out, rn)[i].nak == Refusal(|out|, rn, i)
  {
    var w, r := WriteScript(addr, out), ReadScript(addr, rn, out != []);
    assert out == [] ==> w == [];
    assert rn == 0 ==> r == [];
    if out != [] {
      WriteCodes(addr, out, if i < |out| + 2 then i else 0);
    }
    if rn > 0 && |w| <= i {
      ReadCodes(addr, rn, out != [], if i - |w| < rn + 2 then i - |w| else 0);
    }
    hide WriteScript, ReadScript;
    assert (w + r)[i] == if i < |w| then w[i] else r[i - |w|];
  }

  /** i2c_io succeeds if and only if after every event of the transaction the upper five bits of TWSR are
      those of the awaited status. */
  lemma SuccessIff(o: Slave, trace: Trace, addr: Byte, ap: seq<Byte>, wp: seq<Byte>, rn: nat)
    ensures var body := Body(addr, ap + wp, rn);
            Transaction(o, trace, addr, ap, wp, rn).phase == Going <==>
            forall i :: 0 < i <= |body| ==> o(trace + body[..i]).twsr / 8 == Awaited(|ap + wp|, rn, i - 1) / 8
  {
    hide *;
    var out := ap + wp;
    var script, body := Script(addr, out, rn), Body(addr, out, rn);
    StatusIsFirstRefusal(o, trace, addr, ap, wp, rn, 0);
    BodyIsScript(addr, out, rn);
    forall i: nat | i < |script| ensures script[i].good == Awaited(|out|, rn, i) && Awaited(|out|, rn, i) % 8 == 0 {
      ScriptCodes(addr, out, rn, i);
      AwaitedIsMasked(|out|, rn, i);
    }
    ObligingIff(o, trace, script, body, |out|, rn);
  }

  lemma ObligingIff(o: Slave, trace: Trace, script: seq<Turn>, body: Trace, n: nat, rn: nat)
    requires Events(script) == body && forall i: nat :: i < |script| ==> script[i].good == Awaited(n, rn, i) && Awaited(n, rn, i) % 8 == 0
    ensures Obliging(o, trace, script, |script|) <==>
            forall i :: 0 < i <= |body| ==> o(trace + body[..i]).twsr / 8 == Awaited(n, rn, i - 1) / 8
  {
    hide Awaited, Status, SoFar;
    assert |script| == |body|;
    forall i: nat | 0 < i <= |body|
      ensures Status(o, SoFar(trace, script, i)) == script[i - 1].good <==> o(trace + body[..i]).twsr / 8 == Awaited(n, rn, i - 1) / 8
    {
      OneCode(o, trace, script, body, i, Awaited(n, rn, i - 1));
    }
  }

  lemma OneCode(o: Slave, trace: Trace, script: seq<Turn>, body: Trace, i: nat, code: Byte)
    requires Events(script) == body && i <= |script| && code % 8 == 0
    ensures Status(o, SoFar(trace, script, i)) == code <==> o(trace + body[..i]).twsr / 8 == code / 8
  {
    hide Events;
    var b := o(trace + body[..i]).twsr;
    assert b / 8 * 8 / 8 == b / 8 && code / 8 * 8 == code;
  }

  lemma AwaitedIsMasked(n: nat, rn: nat, i: nat)
    ensures Awaited(n, rn, i) % 8 == 0
  {
  }

  /** The prescaler bits, the lower three of TWSR, make no difference. */
  lemma PrescalerIgnored(o: Slave, u: Slave, trace: Trace, addr: Byte, ap: seq<Byte>, wp: seq<Byte>, rn: nat)
    requires forall t :: o(t).twsr / 8 == u(t).twsr / 8 && o(t).twdr == u(t).twdr
    ensures Transaction(o, trace, addr, ap, wp, rn) == Transaction(u, trace, addr, ap, wp, rn)
  {
    var s := State(trace, 0, [], Going);
    SameActs(o, u);
    WriteAlike(o, u, s, addr, ap, wp);
    ReadAlike(o, u, WritePart(o, s, addr, ap, wp), addr, rn, ap != [] || wp != []);
    hide WritePart, ReadPart;
  }

  /** The two slaves cannot be told apart event by event. */
  ghost predicate SameTo(o: Slave, u: Slave) {
    && (forall s, e, good, nak :: Act(o, s, e, good, nak) == Act(u, s, e, good, nak))
    && forall s, ack :: Take(o, s, ack) == Take(u, s, ack)
  }

  lemma SameActs(o: Slave, u: Slave)
    requires forall t :: o(t).twsr / 8 == u(t).twsr / 8 && o(t).twdr == u(t).twdr
    ensures SameTo(o, u)
  {
    forall s, e, good, nak ensures Act(o, s, e, good, nak) == Act(u, s, e, good, nak) {
      assert Status(o, s.trace + [e]) == Status(u, s.trace + [e]);
      hide Status;
    }
    hide Act;
  }

  lemma {:induction false} SendAlike(o: Slave, u: Slave, s: State, bs: seq<Byte>, n: nat)
    requires SameTo(o, u) && n <= |bs|
    ensures SendAll(o, s, bs, n) == SendAll(u, s, bs, n)
  {
    hide Act, Take;
    if n != 0 {
      SendAlike(o, u, s, bs, n - 1);
    }
  }

  lemma {:induction false} TakeAlike(o: Slave, u: Slave, s: State, n: nat)
    requires SameTo(o, u)
    ensures TakeAll(o, s, n) == TakeAll(u, s, n)
  {
    hide Act, Take;
    if n != 0 {
      TakeAlike(o, u, s, n - 1);
    }
  }

  lemma WriteAlike(o: Slave, u: Slave, s: State, addr: Byte, ap: seq<Byte>, wp: seq<Byte>)
    requires SameTo(o, u)
    ensures WritePart(o, s, addr, ap, wp) == WritePart(u, s, addr, ap, wp)
  {
    hide Act, Take, SendAll, WriteAddress;
    var s1 := Act(o, Begin(o, s, START_OK), Sent(WriteAddress(addr)), SLA_W_ACK, SLA_W_NAK);
    SendAlike(o, u, s1, ap, |ap|);
    SendAlike(o, u, SendAll(o, s1, ap, |ap|), wp, |wp|);
  }

  lemma ReadAlike(o: Slave, u: Slave, s: State, addr: Byte, rn: nat, wrote: bool)
    requires SameTo(o, u)
    ensures ReadPart(o, s, addr, rn, wrote) == ReadPart(u, s, addr, rn, wrote)
  {
    hide Act, Take, TakeAll, ReadAddress;
    if rn > 0 {
      var good := if wrote then REPEATED_START_OK else START_OK;
      TakeAlike(o, u, Act(o, Begin(o, s, good), Sent(ReadAddress(addr)), SLA_R_ACK, SLA_R_NAK), rn - 1);
    }
  }

  // ---- the bytes read ----

  /** Byte `i` of a successful read is what TWDR holds after event `i` behind the address. */
  lemma ReadsFromData(o: Slave, trace: Trace, addr: Byte, ap: seq<Byte>, wp: seq<Byte>, rn: nat, i: nat)
    requires Transaction(o, trace, addr, ap, wp, rn).phase == Going && i < rn
    ensures var read, body := Transaction(o, trace, addr, ap, wp, rn).read, Body(addr, ap + wp, rn);
            |read| == rn <= |body| && read[i] == o(trace + body[..|body| - rn + i + 1]).twdr
  {
    var body := Body(addr, ap + wp, rn);
    TraceLanguage(o, trace, addr, ap, wp, rn);
    ReadsCount(o, trace, addr, ap + wp, rn);
    BodyEvents(addr, ap + wp, rn);
    hide Transaction, Body, Reads;
    var first := |body| - rn;
    assert forall k :: first <= k < |body| ==> body[k].Received?;
    LastReads(o, trace, body, rn, i);
  }

  lemma {:induction false} LastReads(o: Slave, trace: Trace, body: Trace, rn: nat, i: nat)
    requires i < rn <= |body| && |Reads(o, trace, body)| == rn && forall k :: |body| - rn <= k < |body| ==> body[k].Received?
    ensures Reads(o, trace, body)[i] == o(trace + body[..|body| - rn + i + 1]).twdr
    decreases |body|
  {
    var n := |body| - 1;
    assert body[n].Received?;
    if i == rn - 1 {
      assert body[..n + 1] == body;
    } else {
      LastReads(o, trace, body[..n], rn - 1, i);
      assert body[..n][..n - (rn - 1) + i + 1] == body[..n + 1 - rn + i + 1];
    }
  }

  // ---- the call that clears the display ----

  /** A display at 0x50 that acknowledges with 08, 18, 28, 28 gets START, 50, FE, 46, STOP; */
  lemma DisplayCleared()
    ensures var s := Transaction((t: Trace) => Registers(if |t| == 1 then 0x08 else if |t| == 2 then 0x18 else 0x28, 0), [], 0x50, [0xFE, 0x46], [], 0);
            s.phase == Going && s.status == 0 && s.trace == [Start, Sent(0x50), Sent(0xFE), Sent(0x46), Stop]
  {
    hide *;
    var o := (t: Trace) => Registers(if |t| == 1 then 0x08 else if |t| == 2 then 0x18 else 0x28, 0);
    var ap, body := [0xFE, 0x46], Body(0x50, [0xFE, 0x46], 0);
    assert ap + [] == ap;
    BodyEvents(0x50, ap, 0);
    assert body[2] == Sent(ap[0]) && body[3] == Sent(ap[1]);
    FourEvents(body);
    TraceLanguage(o, [], 0x50, ap, [], 0);
    SuccessIff(o, [], 0x50, ap, [], 0);
    forall i | 0 < i <= |body| ensures o([] + body[..i]).twsr / 8 == Awaited(2, 0, i - 1) / 8 {
      assert |[] + body[..i]| == i;
      AwaitedWrite(i - 1);
    }
    assert [] + (body + [Stop]) == [Start, Sent(0x50), Sent(0xFE), Sent(0x46), Stop];
  }

  lemma AwaitedWrite(i: nat)
    requires i < 4
    ensures Awaited(2, 0, i) == if i == 0 then 0x08 else if i == 1 then 0x18 else 0x28
  {
  }

  lemma FourEvents(body: Trace)
    requires |body| == 4 && body[0] == Start && body[1].Sent? && body[1].b % 2 == 0 && body[1].b / 2 == 0x28
    requires body[2] == Sent(0xFE) && body[3] == Sent(0x46)
    ensures body == [Start, Sent(0x50), Sent(0xFE), Sent(0x46)]
  {
    assert body[1].b == 0x50;
  }

  /** No display at 0x50: the address is answered with 20, the master sends a STOP and returns that. */
  lemma DisplayMissing()
    ensures var s := Transaction((t: Trace) => Registers(if |t| == 1 then 0x08 else 0x20, 0), [], 0x50, [0xFE, 0x46], [], 0);
            s.phase != Going && s.status == 0x20 && s.trace == [Start, Sent(0x50), Stop]
  {
    var o, s0, ap := (t: Trace) => Registers(if |t| == 1 then 0x08 else 0x20, 0), State([], 0, [], Going), [0xFE, 0x46];
    var s1 := Begin(o, s0, START_OK);
    var s2 := Act(o, s1, Sent(WriteAddress(0x50)), SLA_W_ACK, SLA_W_NAK);
    assert s1.phase == Going && s1.trace == [Start];
    assert s2.phase == Naked && s2.trace == [Start, Sent(0x50), Stop] && s2.status == 0x20;
    hide Act;
    Stuck(o, s2, ap, 2, 0);
    Stuck(o, s2, [], 0, 0);
    StuckReading(o, s2, 0x50, 0, true);
  }
}
