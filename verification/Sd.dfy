/** src/sd.c: reading and writing one block over SPI (SD Physical Layer Simplified
    Specification, sections 7.2.3, 7.2.4 and 7.3.3). */
module Sd {
  import opened Bytes

  const IDLE: Byte := 0xFF
  const DATA_TOKEN: Byte := 0xFE
  const CMD17: Byte := 0x51
  const CMD24: Byte := 0x58

  /** What the card shifts out, byte by byte, for ever. */
  type Incoming = nat -> Byte

  ghost predicate IdleAfter(miso: Incoming, p: nat) {
    exists q: nat :: p <= q && miso(q) == IDLE
  }

  /** Every busy poll comes to an end. */
  ghost predicate BusyEnds(miso: Incoming) {
    forall p: nat :: IdleAfter(miso, p)
  }

  /** The first position from `p` on, before `end`, whose byte meets `f`; or `end`. */
  function First(miso: Incoming, p: nat, end: nat, f: Byte -> bool): (r: nat)
    requires p <= end
    ensures p <= r <= end && (r < end ==> f(miso(r)))
    ensures forall q :: p <= q < r ==> !f(miso(q))
    decreases end - p
  {
    if p == end || f(miso(p)) then p else First(miso, p + 1, end, f)
  }

  lemma FirstStep(miso: Incoming, p: nat, end: nat, f: Byte -> bool)
    requires p < end
    ensures First(miso, p, end, f) == if f(miso(p)) then p else First(miso, p + 1, end, f)
  {
  }

  /** The position of the next idle byte */
  ghost function NextIdle(miso: Incoming, p: nat): (q: nat)
    requires BusyEnds(miso)
    ensures p <= q && miso(q) == IDLE && forall r :: p <= r < q ==> miso(r) != IDLE
  {
    assert IdleAfter(miso, p);
    var q: nat :| p <= q && miso(q) == IDLE;
    First(miso, p, q, b => b == IDLE)
  }

  function Idle(n: nat): (s: seq<Byte>)
    ensures |s| == n
  {
    seq(n, _ => IDLE)
  }

  /** The six bytes of a command */
  function Frame(cmd: Byte, arg: U32): (s: seq<Byte>)
    ensures |s| == 6
  {
    [cmd, arg / 0x100_0000, arg / 0x1_0000 % 0x100, arg / 0x100 % 0x100, arg % 0x100, 0xFF]
  }

  /** A data block: token, bytes, two bytes in place of the CRC */
  function Block(data: seq<Byte>): seq<Byte> {
    [DATA_TOKEN] + data + [0xFF, 0xFF]
  }

  // ---- the card's side of a write ----

  datatype Option<T> = None | Some(value: T)

  function SkipIdle(s: seq<Byte>): seq<Byte> {
    if s != [] && s[0] == IDLE then SkipIdle(s[1..]) else s
  }

  /** A card that waits for CMD24, then for the token, and takes `n` bytes and a CRC. */
  function Receive(mosi: seq<Byte>, n: nat): Option<(U32, seq<Byte>)> {
    var c := SkipIdle(mosi);
    if |c| < 6 || c[0] != CMD24 then None
    else
      var d := SkipIdle(c[6..]);
      if |d| < n + 3 || d[0] != DATA_TOKEN then None
      else Some((0x100_0000 * c[1] as int + 0x1_0000 * c[2] as int + 0x100 * c[3] as int + c[4] as int, d[1..n + 1]))
  }

  lemma {:induction false} SkipIdleIn(n: nat, s: seq<Byte>)
    requires s == [] || s[0] != IDLE
    ensures SkipIdle(Idle(n) + s) == s
  {
    if n == 0 {
      assert Idle(0) + s == s;
    } else {
      assert (Idle(n) + s)[1..] == Idle(n - 1) + s;
      SkipIdleIn(n - 1, s);
    }
  }

  lemma ArgRoundTrip(x: U32)
    ensures var f := Frame(CMD24, x);
            0x100_0000 * f[1] as int + 0x1_0000 * f[2] as int + 0x100 * f[3] as int + f[4] as int == x
  {
    var y, z := x / 0x100, x / 0x1_0000;
    assert x == 0x100 * y + x % 0x100 && y == 0x100 * z + y % 0x100 && z == 0x100 * (z / 0x100) + z % 0x100;
    assert z / 0x100 == x / 0x100_0000 && y / 0x100 == z;
  }

  /** What the master sends in a write, with idle bytes for every poll, is received as meant. */
  lemma ReceiverRecovers(i: nat, addr: U32, j: nat, data: seq<Byte>, k: nat)
    ensures Receive(Idle(i) + Frame(CMD24, addr) + Idle(j) + Block(data) + Idle(k), |data|) == Some((addr, data))
  {
    var tail := Block(data) + Idle(k);
    var frame := Frame(CMD24, addr);
    var body := frame + (Idle(j) + tail);
    assert Idle(i) + frame + Idle(j) + Block(data) + Idle(k) == Idle(i) + body;
    SkipIdleIn(i, body);
    assert body[6..] == Idle(j) + tail;
    assert tail[0] == DATA_TOKEN && tail[1..|data| + 1] == data;
    SkipIdleIn(j, tail);
    ArgRoundTrip(addr);
    assert body[1] == frame[1] && body[2] == frame[2] && body[3] == frame[3] && body[4] == frame[4];
    hide Frame, SkipIdle, Idle;
  }

  // ---- the transfers ----

  /** Positions after a busy poll and after the CMD17 frame that begin at `p` */
  ghost function AfterFrame(miso: Incoming, p: nat): nat
    requires BusyEnds(miso)
  {
    NextIdle(miso, p) + 1 + 6
  }

  const POLLS: nat := 1001

  predicate IsToken(b: Byte) { b == DATA_TOKEN }

  /** A response byte has its top bit clear. */
  predicate IsR1(b: Byte) { b < 0x80 }

  /** (b & 0x11) == 0x01 */
  predicate IsDataResponse(b: Byte) { b % 2 == 1 && b / 16 % 2 == 0 }

  /** (b & 0x0E) == 0x04 */
  predicate IsAccepted(b: Byte) { b / 2 % 8 == 2 }

  const R1_POLLS: nat := 7
  const RESPONSE_POLLS: nat := 128

  /** Position after the frame of the command at which sd_command finds its response, if any */
  ghost function R1At(miso: Incoming, p: nat): nat
    requires BusyEnds(miso)
  {
    First(miso, AfterFrame(miso, p), AfterFrame(miso, p) + R1_POLLS, IsR1)
  }

  /** CMD24 is answered with 0 within seven bytes. */
  ghost predicate CommandTaken(miso: Incoming, p: nat)
    requires BusyEnds(miso)
  {
    R1At(miso, p) < AfterFrame(miso, p) + R1_POLLS && miso(R1At(miso, p)) == 0
  }

  /** Of the 128 bytes from `d` on the first data response says accepted. */
  ghost predicate Accepted(miso: Incoming, d: nat) {
    var e := First(miso, d, d + RESPONSE_POLLS, IsDataResponse);
    e < d + RESPONSE_POLLS && IsAccepted(miso(e))
  }

  /** The card accepts a block of `n` bytes that follows the response to the command. */
  ghost predicate BlockAccepted(miso: Incoming, p: nat, n: nat)
    requires BusyEnds(miso)
  {
    Accepted(miso, R1At(miso, p) + 1 + (n + 3))
  }

  lemma BlockFollows(miso: Incoming, p: nat, n: nat)
    requires BusyEnds(miso)
    ensures BlockAccepted(miso, p, n) == Accepted(miso, R1At(miso, p) + 1 + (n + 3))
  {
  }

  /** Where the poll after the CMD17 frame finds the token, or where it gives up */
  ghost function TokenAt(miso: Incoming, p: nat): nat
    requires BusyEnds(miso)
  {
    First(miso, AfterFrame(miso, p), AfterFrame(miso, p) + POLLS, IsToken)
  }

  /** The token comes within 1001 bytes after the command. */
  ghost predicate TokenComes(miso: Incoming, p: nat)
    requires BusyEnds(miso)
  {
    exists t :: AfterFrame(miso, p) <= t < AfterFrame(miso, p) + POLLS && miso(t) == DATA_TOKEN
  }

  lemma TokenIff(miso: Incoming, p: nat)
    requires BusyEnds(miso)
    ensures TokenComes(miso, p) <==> TokenAt(miso, p) < AfterFrame(miso, p) + POLLS
    ensures TokenComes(miso, p) ==> miso(TokenAt(miso, p)) == DATA_TOKEN
  {
    var s, t := AfterFrame(miso, p), TokenAt(miso, p);
    if t < s + POLLS {
      assert IsToken(miso(t));
    }
    forall q | s <= q < t ensures miso(q) != DATA_TOKEN {
      assert !IsToken(miso(q));
    }
  }

  lemma OneMoreIdle(n: nat)
    ensures Idle(n) + [IDLE] == Idle(n + 1)
  {
  }

  lemma IdleConcat(m: nat, n: nat)
    ensures Idle(m) + Idle(n) == Idle(m + n)
  {
  }

  /** From position p0 to p1 the master has polled, sent the CMD24 frame and polled again. */
  ghost predicate FrameSent(miso: Incoming, p0: nat, m0: seq<Byte>, p1: nat, m1: seq<Byte>, addr: U32)
    requires BusyEnds(miso)
  {
    var s := AfterFrame(miso, p0);
    s <= p1 && m1 == m0 + Idle(s - 6 - p0) + Frame(CMD24, addr) + Idle(p1 - s)
  }

  /** From position p0 to p1 the master has sent the CMD17 frame when the card was idle, and
      otherwise nothing but idle bytes. */
  ghost predicate ReadSent(miso: Incoming, p0: nat, m0: seq<Byte>, p1: nat, m1: seq<Byte>, addr: U32)
    requires BusyEnds(miso)
  {
    var s := AfterFrame(miso, p0);
    s <= p1 && m1 == m0 + Idle(s - 6 - p0) + Frame(CMD17, addr) + Idle(p1 - s)
  }

  lemma MoreIdle(miso: Incoming, p0: nat, m0: seq<Byte>, p1: nat, m1: seq<Byte>, n: nat, addr: U32)
    requires BusyEnds(miso) && ReadSent(miso, p0, m0, p1, m1, addr)
    ensures ReadSent(miso, p0, m0, p1 + n, m1 + Idle(n), addr)
  {
    var s := AfterFrame(miso, p0);
    IdleConcat(p1 - s, n);
    hide AfterFrame, Idle, Frame;
    assert m0 + Idle(s - 6 - p0) + Frame(CMD17, addr) + Idle(p1 - s) + Idle(n) ==
           m0 + Idle(s - 6 - p0) + Frame(CMD17, addr) + (Idle(p1 - s) + Idle(n));
  }

  /** From what the master has sent since `m0` a receiver gets the address and the data. */
  ghost predicate Recovered(m0: seq<Byte>, m: seq<Byte>, addr: U32, data: seq<Byte>) {
    m0 <= m && Receive(m[|m0|..], |data|) == Some((addr, data))
  }

  lemma SentIsReceived(miso: Incoming, p0: nat, m0: seq<Byte>, p1: nat, m1: seq<Byte>, m2: seq<Byte>, k: nat, addr: U32, data: seq<Byte>)
    requires BusyEnds(miso) && FrameSent(miso, p0, m0, p1, m1, addr)
    requires m2 == m1 + Block(data) + Idle(k)
    ensures Recovered(m0, m2, addr, data)
  {
    var i, j := AfterFrame(miso, p0) - 6 - p0, p1 - AfterFrame(miso, p0);
    ReceiverRecovers(i, addr, j, data, k);
    hide Idle, Frame, Block, Receive;
    var sent := Idle(i) + Frame(CMD24, addr) + Idle(j) + Block(data) + Idle(k);
    assert m2 == m0 + sent;
    assert m2[|m0|..] == sent;
  }

  /** The SPI bus with the card selected or not */
  class Spi {
    const miso: Incoming
    var pos: nat
    var mosi: seq<Byte>
    var selected: bool

    constructor (miso: Incoming)
      ensures this.miso == miso && pos == 0 && mosi == [] && !selected
    {
      this.miso := miso;
      pos, mosi, selected := 0, [], false;
    }

    method WriteChar(c: Byte)
      modifies this`pos, this`mosi
      ensures pos == old(pos) + 1 && mosi == old(mosi) + [c]
    {
      pos, mosi := pos + 1, mosi + [c];
    }

    method ReadChar() returns (b: Byte)
      modifies this`pos, this`mosi
      ensures pos == old(pos) + 1 && mosi == old(mosi) + [IDLE] && b == miso(old(pos))
    {
      b := miso(pos);
      pos, mosi := pos + 1, mosi + [IDLE];
    }

    method WriteFrame(cmd: Byte, arg: U32)
      modifies this`pos, this`mosi
      ensures pos == old(pos) + 6 && mosi == old(mosi) + Frame(cmd, arg)
    {
      WriteChar(cmd);
      WriteChar(arg / 0x100_0000 % 0x100);
      WriteChar(arg / 0x1_0000 % 0x100);
      WriteChar(arg / 0x100 % 0x100);
      WriteChar(arg % 0x100);
      WriteChar(0xFF);
    }

    /** while (sd_is_busy()); */
    method WaitIdle()
      requires BusyEnds(miso)
      modifies this`pos, this`mosi
      ensures pos == NextIdle(miso, old(pos)) + 1 && mosi == old(mosi) + Idle(pos - old(pos))
    {
      ghost var q := NextIdle(miso, pos);
      ghost var p0 := pos;
      var b := ReadChar();
      assert mosi == old(mosi) + Idle(1);
      while b != IDLE
        invariant p0 < pos <= q + 1 && b == miso(pos - 1)
        invariant mosi == old(mosi) + Idle(pos - p0)
        decreases q + 1 - pos
      {
        ghost var n := pos - p0;
        b := ReadChar();
        assert Idle(n) + [IDLE] == Idle(n + 1);
      }
    }

    /** Poll until a byte meets `f` or `n` bytes have been read. */
    method Poll(n: nat, f: Byte -> bool) returns (found: bool, b: Byte)
      modifies this`pos, this`mosi
      ensures var r := First(miso, old(pos), old(pos) + n, f);
              && found == (r < old(pos) + n) && (found ==> b == miso(r))
              && pos == (if found then r + 1 else r) && mosi == old(mosi) + Idle(pos - old(pos))
    {
      ghost var p0, end := pos, pos + n;
      found, b := false, 0;
      var i := 0;
      assert old(mosi) + Idle(0) == old(mosi);
      hide Idle, First;
      while i < n && !found
        invariant i <= n && pos == p0 + i && mosi == old(mosi) + Idle(i)
        invariant if found then i > 0 && b == miso(pos - 1) && First(miso, p0, end, f) == pos - 1 && f(b)
                  else First(miso, p0, end, f) == First(miso, pos, end, f)
      {
        OneMoreIdle(i);
        FirstStep(miso, pos, end, f);
        b := ReadChar();
        i := i + 1;
        found := f(b);
        assert old(mosi) + (Idle(i - 1) + [IDLE]) == old(mosi) + Idle(i - 1) + [IDLE];
      }
    }

    /** sd_init_read_sector */
    method InitReadSector(arg: U32) returns (r: int)
      requires BusyEnds(miso)
      modifies this`pos, this`mosi
      ensures r == if TokenComes(miso, old(pos)) then 0 else -1
      ensures pos == if r == 0 then TokenAt(miso, old(pos)) + 1 else AfterFrame(miso, old(pos)) + POLLS
      ensures ReadSent(miso, old(pos), old(mosi), pos, mosi, arg)
    {
      TokenIff(miso, pos);
      hide NextIdle, Idle, Frame, TokenComes;
      WaitIdle();
      WriteFrame(CMD17, arg);
      var found, _ := Poll(POLLS, IsToken);
      r := if found then 0 else -1;
    }

    /** sd_get_bytes */
    method GetBytes(buf: array<Byte>)
      modifies this`pos, this`mosi, buf
      ensures pos == old(pos) + buf.Length && mosi == old(mosi) + Idle(buf.Length)
      ensures forall i :: 0 <= i < buf.Length ==> buf[i] == miso(old(pos) + i)
    {
      assert mosi == old(mosi) + Idle(0);
      for i := 0 to buf.Length
        invariant pos == old(pos) + i && mosi == old(mosi) + Idle(i)
        invariant forall j :: 0 <= j < i ==> buf[j] == miso(old(pos) + j)
      {
        assert Idle(i) + [IDLE] == Idle(i + 1);
        buf[i] := ReadChar();
      }
    }

    /** sd_get_sector: succeeds if and only if the token comes within 1001 bytes after the
        command, and then delivers exactly the bytes that follow it. */
    method GetSector(addr: U32, buf: array<Byte>) returns (r: int)
      requires BusyEnds(miso)
      modifies this, buf
      ensures r == if TokenComes(miso, old(pos)) then 0 else -1
      ensures r == 0 ==> forall i :: 0 <= i < buf.Length ==> buf[i] == miso(TokenAt(miso, old(pos)) + 1 + i)
      ensures r != 0 ==> buf[..] == old(buf[..])
      ensures pos == if r == 0 then NextIdle(miso, TokenAt(miso, old(pos)) + 1 + buf.Length) + 1
                     else AfterFrame(miso, old(pos)) + POLLS
      ensures ReadSent(miso, old(pos), old(mosi), pos, mosi, addr)
      ensures !selected
    {
      hide AfterFrame, NextIdle, TokenAt, TokenComes, Idle, Frame, ReadSent;
      selected := true;
      ghost var p0, m0 := pos, mosi;
      r := InitReadSector(addr);
      if r == 0 {
        ghost var p, m := pos, mosi;
        GetBytes(buf);
        MoreIdle(miso, p0, m0, p, m, pos - p, addr);
        p, m := pos, mosi;
        WaitIdle();
        MoreIdle(miso, p0, m0, p, m, pos - p, addr);
      }
      selected := false;
    }

    /** sd_put_bytes */
    method PutBytes(data: seq<Byte>)
      modifies this`pos, this`mosi
      ensures pos == old(pos) + |data| + 3 && mosi == old(mosi) + Block(data)
    {
      WriteChar(DATA_TOKEN);
      ghost var m := mosi;
      for i := 0 to |data|
        invariant pos == old(pos) + 1 + i && mosi == m + data[..i]
      {
        assert data[..i] + [data[i]] == data[..i + 1];
        WriteChar(data[i]);
      }
      WriteChar(0xFF);
      WriteChar(0xFF);
    }

    /** sd_init_put_sector with sd_command(CMD24, ...): the eighth poll counts as a failure
        whatever it brings. */
    method InitPutSector(addr: U32) returns (r: int)
      requires BusyEnds(miso)
      modifies this
      ensures r == (if CommandTaken(miso, old(pos)) then 0 else -1) && selected
      ensures r == 0 ==> pos == R1At(miso, old(pos)) + 1
      ensures FrameSent(miso, old(pos), old(mosi), pos, mosi, addr)
    {
      hide NextIdle, Idle, Frame;
      WaitIdle();
      selected := true;
      WriteFrame(CMD24, addr);
      ghost var s := pos;
      var found, ret := Poll(R1_POLLS, IsR1);
      if !found {
        ghost var n := pos - s;
        var _ := ReadChar();
        OneMoreIdle(n);
        return -1;
      }
      r := if ret == 0 then 0 else -1;
    }

    /** The part of sd_put_sector after the command has been taken */
    method PutBlock(data: seq<Byte>) returns (ok: bool)
      requires BusyEnds(miso)
      modifies this`pos, this`mosi
      ensures ok == Accepted(miso, old(pos) + (|data| + 3))
      ensures pos >= old(pos) + (|data| + 3)
      ensures mosi == old(mosi) + Block(data) + Idle(pos - (old(pos) + (|data| + 3)))
    {
      hide NextIdle, Idle, Block, First;
      PutBytes(data);
      ghost var d := pos;
      var found, ret := Poll(RESPONSE_POLLS, IsDataResponse);
      ghost var e := pos;
      WaitIdle();
      IdleConcat(e - d, pos - e);
      ok := found && IsAccepted(ret);
    }

    /** The same with what the card has received since position `p0` */
    method PutFramed(data: seq<Byte>, ghost p0: nat, ghost m0: seq<Byte>, ghost addr: U32) returns (ok: bool)
      requires BusyEnds(miso) && FrameSent(miso, p0, m0, pos, mosi, addr)
      modifies this`pos, this`mosi
      ensures ok == Accepted(miso, old(pos) + (|data| + 3)) && Recovered(m0, mosi, addr, data)
    {
      hide Recovered, Accepted, FrameSent, Block, Idle;
      ghost var p1, m1 := pos, mosi;
      ok := PutBlock(data);
      SentIsReceived(miso, p0, m0, p1, m1, mosi, pos - (p1 + (|data| + 3)), addr, data);
    }

    /** sd_put_sector: 0 exactly when the card takes the command and accepts the block, and then
        a receiver on the card's side has recovered the address and the data. A command that is
        not taken leaves the card selected. */
    method PutSector(addr: U32, data: seq<Byte>) returns (r: int)
      requires BusyEnds(miso)
      modifies this
      ensures r == if CommandTaken(miso, old(pos)) && BlockAccepted(miso, old(pos), |data|) then 0 else -1
      ensures selected == !CommandTaken(miso, old(pos))
      ensures CommandTaken(miso, old(pos)) ==> Recovered(old(mosi), mosi, addr, data)
    {
      selected := true;
      ghost var p0, m0 := pos, mosi;
      BlockFollows(miso, pos, |data|);
      hide *;
      ghost var accepted := BlockAccepted(miso, pos, |data|);
      r := InitPutSector(addr);
      assert r == 0 ==> accepted == Accepted(miso, pos + (|data| + 3));
      if r == 0 {
        var ok := PutFramed(data, p0, m0, addr);
        assert ok == accepted;
        selected := false;
        r := if ok then 0 else -1;
      }
    }
  }
}
