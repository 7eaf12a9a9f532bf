/** src/sd.c: what the transfers of module Sd mean in bytes on the bus (SD Physical Layer Simplified
    Specification, sections 7.2.3, 7.2.4 and 7.3.3). */
module SdBus {
  import opened Bytes
  import opened Sd

  /** The card, polled from `p` on, is busy until it shows 0xFF at `q`. */
  ghost predicate BusyUntil(miso: Incoming, p: nat, q: nat) {
    p <= q && miso(q) == 0xFF && forall r :: p <= r < q ==> miso(r) != 0xFF
  }

  lemma FrameFollows(miso: Incoming, p: nat, q: nat)
    requires BusyEnds(miso) && BusyUntil(miso, p, q)
    ensures AfterFrame(miso, p) == q + 7
  {
    var n := NextIdle(miso, p);
    assert !(n < q) && !(q < n);
  }

  // ---- reading ----

  /** A read succeeds if and only if one of the 1001 bytes behind the command frame is 0xFE, and the
      data are taken from behind the first of those. */
  lemma ReadSucceedsIff(miso: Incoming, p: nat, q: nat)
    requires BusyEnds(miso) && BusyUntil(miso, p, q)
    ensures TokenComes(miso, p) <==> exists t :: q + 7 <= t < q + 1008 && miso(t) == 0xFE
    ensures TokenComes(miso, p) ==>
              var t := TokenAt(miso, p);
              q + 7 <= t < q + 1008 && miso(t) == 0xFE && forall r :: q + 7 <= r < t ==> miso(r) != 0xFE
  {
    FrameFollows(miso, p, q);
    TokenIff(miso, p);
    forall r | q + 7 <= r < TokenAt(miso, p) ensures miso(r) != 0xFE {
      assert !IsToken(miso(r));
    }
    hide AfterFrame;
  }

  /** The number that four bytes make, most significant first */
  function Address(b3: Byte, b2: Byte, b1: Byte, b0: Byte): U32 {
    0x100_0000 * b3 as int + 0x1_0000 * b2 as int + 0x100 * b1 as int + b0 as int
  }

  lemma FrameBytes(cmd: Byte, b3: Byte, b2: Byte, b1: Byte, b0: Byte)
    ensures Frame(cmd, Address(b3, b2, b1, b0)) == [cmd, b3, b2, b1, b0, 0xFF]
  {
    var x := Address(b3, b2, b1, b0);
    assert x / 0x100 == 0x1_0000 * b3 as int + 0x100 * b2 as int + b1 as int;
    assert x / 0x1_0000 == 0x100 * b3 as int + b2 as int;
    assert x / 0x100_0000 == b3;
  }

  lemma IdleBytes(n: nat)
    ensures Idle(n) == seq(n, _ => 0xFF)
  {
  }

  /** A read puts on the bus 0xFF while it waits, then 0x51, the sector number, most significant byte
      first, and 0xFF, and then only 0xFF; */
  lemma ReadOnTheWire(miso: Incoming, p0: nat, m0: seq<Byte>, p1: nat, m1: seq<Byte>, b3: Byte, b2: Byte, b1: Byte, b0: Byte, q: nat)
    requires BusyEnds(miso) && BusyUntil(miso, p0, q) && ReadSent(miso, p0, m0, p1, m1, Address(b3, b2, b1, b0))
    ensures q + 7 <= p1
    ensures m1 == m0 + seq(q + 1 - p0, _ => 0xFF) + [0x51, b3, b2, b1, b0, 0xFF] + seq(p1 - (q + 7), _ => 0xFF)
  {
    FrameFollows(miso, p0, q);
    FrameBytes(0x51, b3, b2, b1, b0);
    IdleBytes(q + 1 - p0);
    IdleBytes(p1 - (q + 7));
    hide AfterFrame, Frame, Idle, Address;
  }

  /** the command of a write differs in its first byte, 0x58. */
  lemma WriteOnTheWire(miso: Incoming, p0: nat, m0: seq<Byte>, p1: nat, m1: seq<Byte>, b3: Byte, b2: Byte, b1: Byte, b0: Byte, q: nat)
    requires BusyEnds(miso) && BusyUntil(miso, p0, q) && FrameSent(miso, p0, m0, p1, m1, Address(b3, b2, b1, b0))
    ensures q + 7 <= p1
    ensures m1 == m0 + seq(q + 1 - p0, _ => 0xFF) + [0x58, b3, b2, b1, b0, 0xFF] + seq(p1 - (q + 7), _ => 0xFF)
  {
    FrameFollows(miso, p0, q);
    FrameBytes(0x58, b3, b2, b1, b0);
    IdleBytes(q + 1 - p0);
    IdleBytes(p1 - (q + 7));
    hide AfterFrame, Frame, Idle, Address;
  }

  // ---- writing ----

  /** Of the seven bytes behind the frame of the command the one at `i` is 0, and those before it have
      the top bit set. */
  ghost predicate Answers(miso: Incoming, q: nat, i: nat) {
    q + 7 <= i < q + 14 && miso(i) == 0x00 && forall j :: q + 7 <= j < i ==> miso(j) >= 0x80
  }

  /** The command is taken if and only if it is answered like that. */
  lemma TakenIff(miso: Incoming, p: nat, q: nat)
    requires BusyEnds(miso) && BusyUntil(miso, p, q)
    ensures CommandTaken(miso, p) <==> exists i :: Answers(miso, q, i)
    ensures forall i :: Answers(miso, q, i) ==> R1At(miso, p) == i
  {
    FrameFollows(miso, p, q);
    var r := R1At(miso, p);
    forall j | q + 7 <= j < r ensures miso(j) >= 0x80 {
      assert !IsR1(miso(j));
    }
    if r < q + 14 {
      assert IsR1(miso(r));
      assert miso(r) == 0x00 ==> Answers(miso, q, r);
    }
    forall i | Answers(miso, q, i) ensures r == i {
      assert IsR1(miso(i));
    }
    hide AfterFrame;
  }

  /** The byte at `e` is the first from `d` on of the form xxx0xxx1. */
  ghost predicate Responds(miso: Incoming, d: nat, e: nat) {
    && d <= e && miso(e) % 2 == 1 && miso(e) / 16 % 2 == 0
    && forall r :: d <= r < e ==> !(miso(r) % 2 == 1 && miso(r) / 16 % 2 == 0)
  }

  lemma AcceptedIff(miso: Incoming, d: nat)
    ensures Accepted(miso, d) <==> exists e :: d <= e < d + 128 && Responds(miso, d, e) && miso(e) % 32 == 5
    ensures forall e :: d <= e < d + 128 && Responds(miso, d, e) ==> (Accepted(miso, d) <==> miso(e) % 32 == 5)
  {
    var f := First(miso, d, d + RESPONSE_POLLS, IsDataResponse);
    forall r | d <= r < f ensures !(miso(r) % 2 == 1 && miso(r) / 16 % 2 == 0) {
      assert !IsDataResponse(miso(r));
    }
    if f < d + 128 {
      assert IsDataResponse(miso(f));
      AcceptedByte(miso(f));
      assert Responds(miso, d, f);
    }
    forall e | d <= e < d + 128 && Responds(miso, d, e) ensures e == f {
      assert IsDataResponse(miso(e));
    }
    hide First;
  }

  lemma AcceptedByte(b: Byte)
    requires b % 2 == 1 && b / 16 % 2 == 0
    ensures IsAccepted(b) <==> b % 32 == 5
  {
    LowBits(b);
    FiveBits(b % 32);
    hide IsAccepted;
  }

  lemma LowBits(b: Byte)
    ensures b % 32 % 2 == b % 2 && b % 32 / 16 == b / 16 % 2 && (IsAccepted(b) <==> b % 32 / 2 % 8 == 2)
  {
    var h, l := b / 32, b % 32;
    assert b == 32 * h + l;
    assert b / 16 == 2 * h + l / 16;
    assert b / 2 == 16 * h + l / 2;
  }

  lemma FiveBits(l: int)
    requires 0 <= l < 32 && l % 2 == 1 && l / 16 == 0
    ensures l / 2 % 8 == 2 <==> l == 5
  {
  }

  /** Once the command is answered with 0 at `i`, the write succeeds if and only if among the 128 bytes
      behind the block the first of the form xxx0xxx1 is xxx00101; so a first response of xxx01011 (CRC
      error) or xxx01101 (write error) fails it. */
  lemma WriteSucceedsIff(miso: Incoming, p: nat, q: nat, i: nat, n: nat)
    requires BusyEnds(miso) && BusyUntil(miso, p, q) && Answers(miso, q, i)
    ensures var d := i + 1 + n + 3;
            && CommandTaken(miso, p)
            && (BlockAccepted(miso, p, n) <==> exists e :: d <= e < d + 128 && Responds(miso, d, e) && miso(e) % 32 == 5)
            && forall e :: d <= e < d + 128 && Responds(miso, d, e) && (miso(e) % 32 == 11 || miso(e) % 32 == 13) ==> !BlockAccepted(miso, p, n)
  {
    TakenIff(miso, p, q);
    BlockFollows(miso, p, n);
    AcceptedIff(miso, i + 1 + n + 3);
    hide *;
  }

  // ---- what a card receives ----

  /** In the bytes `m` the command 0x58 for address `a` stands at `i`, and the token 0xFE and the data
      `d` at `j`, with nothing but 0xFF before and between. */
  ghost predicate Transfer(m: seq<Byte>, i: nat, j: nat, a: U32, d: seq<Byte>) {
    && i + 6 <= j && j + 1 + |d| + 2 <= |m|
    && (forall k :: 0 <= k < i ==> m[k] == 0xFF) && m[i] == 0x58
    && a == 0x100_0000 * m[i + 1] as int + 0x1_0000 * m[i + 2] as int + 0x100 * m[i + 3] as int + m[i + 4] as int
    && (forall k :: i + 6 <= k < j ==> m[k] == 0xFF) && m[j] == 0xFE
    && d == m[j + 1..j + 1 + |d|]
  }

  lemma {:induction false} Skipped(s: seq<Byte>) returns (k: nat)
    ensures k <= |s| && SkipIdle(s) == s[k..] && (k < |s| ==> s[k] != 0xFF) && forall i :: 0 <= i < k ==> s[i] == 0xFF
  {
    if s != [] && s[0] == 0xFF {
      var l := Skipped(s[1..]);
      k := l + 1;
      assert s[1..][l..] == s[l + 1..];
      assert forall i :: 1 <= i < k ==> s[i] == s[1..][i - 1];
    } else {
      k := 0;
      assert s[0..] == s;
    }
  }

  /** The receiver of module Sd finds address and data where they stand, and nothing else. */
  lemma ReceivedIff(m: seq<Byte>, a: U32, d: seq<Byte>)
    ensures Receive(m, |d|) == Some((a, d)) <==> exists i, j :: Transfer(m, i, j, a, d)
  {
    var i := Skipped(m);
    if i + 6 <= |m| && m[i] == 0x58 {
      var rest := m[i + 6..];
      var k := Skipped(rest);
      ReceivedMeans(m, i, rest, k, a, d);
    } else {
      NoCommand(m, i, |d|);
    }
    if exists x, y :: Transfer(m, x, y, a, d) {
      var x, y :| Transfer(m, x, y, a, d);
      SameStart(m, i, x, y, a, d);
      TransferFound(m, x, y, a, d);
    }
    hide *;
  }

  lemma SameStart(m: seq<Byte>, i: nat, x: nat, y: nat, a: U32, d: seq<Byte>)
    requires i <= |m| && (i < |m| ==> m[i] != 0xFF) && (forall k :: 0 <= k < i ==> m[k] == 0xFF) && Transfer(m, x, y, a, d)
    ensures x == i
  {
  }

  lemma NoCommand(m: seq<Byte>, i: nat, n: nat)
    requires i <= |m| && SkipIdle(m) == m[i..] && !(i + 6 <= |m| && m[i] == 0x58)
    ensures Receive(m, n) == None
  {
    hide SkipIdle;
  }

  lemma ReceivedMeans(m: seq<Byte>, i: nat, rest: seq<Byte>, k: nat, a: U32, d: seq<Byte>)
    requires i + 6 <= |m| && SkipIdle(m) == m[i..] && (forall x :: 0 <= x < i ==> m[x] == 0xFF) && m[i] == 0x58
    requires rest == m[i + 6..] && k <= |rest| && SkipIdle(rest) == rest[k..] && forall x :: 0 <= x < k ==> rest[x] == 0xFF
    ensures Receive(m, |d|) == Some((a, d)) ==> Transfer(m, i, i + 6 + k, a, d)
  {
    hide SkipIdle;
    assert m[i..][6..] == rest && rest[k..] == m[i + 6 + k..];
    forall x | i + 6 <= x < i + 6 + k ensures m[x] == 0xFF {
      assert m[x] == rest[x - (i + 6)];
    }
    if Receive(m, |d|) == Some((a, d)) {
      assert rest[k..][1..|d| + 1] == m[i + 6 + k + 1..i + 6 + k + 1 + |d|];
    }
  }

  lemma TransferFound(m: seq<Byte>, i: nat, j: nat, a: U32, d: seq<Byte>)
    requires Transfer(m, i, j, a, d) && SkipIdle(m) == m[i..]
    ensures Receive(m, |d|) == Some((a, d))
  {
    var c := m[i..];
    assert c[6..] == Idle(j - (i + 6)) + m[j..];
    SkipIdleIn(j - (i + 6), m[j..]);
    hide SkipIdle, Idle;
    assert m[j..][1..|d| + 1] == m[j + 1..j + 1 + |d|];
  }
}
