/** src/elm.c: reading the adapter's answer up to its prompt. */
module Elm {
  import opened Bytes
  import opened CStr
  import opened Fifo
  import opened Hex
  import I = FifoInterrupt

  const PROMPT: Byte := 62  // '>'

  /** elm_response_complete on the string in the buffer */
  predicate Complete(text: seq<Byte>) {
    PROMPT in Text(text)
  }

  /** elm_read stops after `k` bytes of the stream when asked for at most `len`. */
  predicate StopsAt(stream: seq<Byte>, len: nat, k: nat) {
    && k <= len && k <= |stream|
    && (forall j :: 0 < j < k ==> !Complete(stream[..j]))
    && (k == len || (0 < k && Complete(stream[..k])))
  }

  /** What follows a NUL in the buffer does not matter. */
  lemma {:induction false} TextUpToNul(s: seq<Byte>, rest: seq<Byte>)
    ensures Text(s + [NUL] + rest) == Text(s)
  {
    if s == [] {
      assert (s + [NUL] + rest)[0] == NUL;
    } else {
      TextUpToNul(s[1..], rest);
      assert (s + [NUL] + rest)[1..] == s[1..] + [NUL] + rest;
    }
  }

  lemma BufferComplete(buf: seq<Byte>, k: nat)
    requires k < |buf| && buf[k] == NUL
    ensures Complete(buf) <==> Complete(buf[..k])
  {
    assert buf == buf[..k] + [NUL] + buf[k + 1..];
    TextUpToNul(buf[..k], buf[k + 1..]);
  }

  lemma StopIsUnique(stream: seq<Byte>, len: nat, j: nat, k: nat)
    requires StopsAt(stream, len, j) && StopsAt(stream, len, k)
    ensures j == k
  {
  }

  lemma {:induction false} TextReaches(s: seq<Byte>, i: nat)
    requires i < |s| && NUL !in s[..i] && s[i] != NUL
    ensures i < |Text(s)|
  {
    if i > 0 {
      assert s[..i][0] == s[0];
      assert s[1..][..i - 1] == s[..i][1..];
      TextReaches(s[1..], i - 1);
    }
  }

  /** The answer is complete once a prompt, '>' (62), has come that no NUL precedes. */
  lemma CompleteIff(s: seq<Byte>)
    ensures Complete(s) <==> exists i :: 0 <= i < |s| && s[i] == 62 && 0 !in s[..i]
  {
    var t := Text(s);
    if PROMPT in t {
      var i :| 0 <= i < |t| && t[i] == PROMPT;
      assert s[..i] == t[..i] && s[i] == PROMPT;
    }
    if i :| 0 <= i < |s| && s[i] == PROMPT && NUL !in s[..i] {
      TextReaches(s, i);
      assert t[i] == PROMPT;
    }
  }

  /** For a stream without NUL: the shortest prefix that ends in the prompt, or `len` bytes if
      there is no prompt among the first `len`. */
  lemma StopsAtPrompt(stream: seq<Byte>, len: nat, k: nat)
    requires 0 !in stream && len <= |stream|
    ensures StopsAt(stream, len, k) <==>
            k <= len && 62 !in stream[..if k == 0 then 0 else k - 1] && (k == len || (0 < k && stream[k - 1] == 62))
  {
    forall j | 0 <= j <= |stream| ensures Complete(stream[..j]) <==> PROMPT in stream[..j] {
      assert NUL !in stream[..j];
      NoNulText(stream[..j]);
    }
    hide Complete;
    if k <= len {
      if 0 < k {
        assert stream[..k] == stream[..k - 1] + [stream[k - 1]];
        if PROMPT in stream[..k - 1] {
          var i :| 0 <= i < k - 1 && stream[i] == PROMPT;
          assert stream[..i + 1][i] == PROMPT;
        }
        forall j | 0 < j < k ensures PROMPT in stream[..j] ==> PROMPT in stream[..k - 1] {
          if i :| 0 <= i < j && stream[..j][i] == PROMPT {
            assert stream[..k - 1][i] == PROMPT;
          }
        }
      }
    }
  }

  /** struct elm_ctx */
  class ElmCtx {
    const fifo: FifoBuffer
    const uart: Uart

    constructor (fifo: FifoBuffer, uart: Uart)
      ensures this.fifo == fifo && this.uart == uart
    {
      this.fifo, this.uart := fifo, uart;
    }

    /** The receive interrupt runs once for each byte of `chunk`; a latched ring drops bytes. */
    method Receive(chunk: seq<Byte>) returns (ghost taken: seq<Byte>)
      requires fifo.Valid()
      modifies fifo, fifo.buf
      ensures fifo.Valid() && taken <= chunk
      ensures fifo.Contents() == old(fifo.Contents()) + taken
      ensures old(fifo.status) != FULL && |old(fifo.Contents())| + |chunk| <= FIFO_SIZE ==> taken == chunk
      ensures fifo.status == FULL ==> old(fifo.status) == FULL || |fifo.Contents()| == FIFO_SIZE
    {
      taken := [];
      hide RingWrite, Consistent, Items;
      ghost var open := fifo.status != FULL && |fifo.Contents()| + |chunk| <= FIFO_SIZE;
      for i := 0 to |chunk|
        invariant fifo.Valid() && |taken| <= i && taken == chunk[..|taken|]
        invariant |taken| < i ==> fifo.status == FULL
        invariant fifo.Contents() == old(fifo.Contents()) + taken
        invariant open && i < |chunk| ==> fifo.status != FULL
        invariant fifo.status == FULL ==> old(fifo.status) == FULL || |fifo.Contents()| == FIFO_SIZE
        invariant open ==> |taken| == i
      {
        var r := fifo.WriteByte(chunk[i]);
        if r == 0 {
          taken := taken + [chunk[i]];
        }
      }
    }

    /** The part of the loop of elm_read that takes one byte from the ring */
    method Take(buf: array<Byte>, cur: nat) returns (complete: bool)
      requires fifo.Valid() && fifo.status != EMPTY && cur + 1 < buf.Length && buf != fifo.buf
      modifies fifo, buf
      ensures fifo.Valid() && old(fifo.Contents()) != [] && fifo.Contents() == old(fifo.Contents())[1..]
      ensures fifo.status == FULL ==> old(fifo.status) == FULL
      ensures buf[..] == old(buf[..])[cur := old(fifo.Contents())[0]][cur + 1 := NUL]
      ensures complete == Complete(buf[..])
    {
      NotEmpty(fifo.State());
      hide Complete, Items, Consistent;
      var r, ch := fifo.ReadByte(0);
      buf[cur] := ch;
      buf[cur + 1] := NUL;
      complete := Complete(buf[..]);
    }

    /** elm_read: `arrivals` are the bytes received before each turn of the loop; when they are
        used up and the ring is empty the source waits for ever, and the model returns with
        `done` false. `stream` is what was in the ring and what it took since. */
    method Read(buf: array<Byte>, len: nat, arrivals: seq<seq<Byte>>)
        returns (done: bool, ret: Byte, ghost stream: seq<Byte>, ghost k: nat)
      requires fifo.Valid() && len < buf.Length && buf != fifo.buf
      modifies fifo, fifo.buf, buf
      ensures fifo.Valid() && k <= len && ret == k % 0x100
      ensures Heard(stream, old(fifo.Contents()), old(fifo.status) == FULL, arrivals, done)
      ensures Stored(stream, fifo.Contents(), buf[..], len, k)
      ensures if done then StopsAt(stream, len, k) else k == |stream| && k < len && Unfinished(stream, k)
      ensures CellsBehind(buf[..], old(buf[..]), len, k)
    {
      MemSet(buf, len);
      ghost var was := old(buf[..]);
      assert CellsBehind(buf[..], was, len, 0) by {
        assert buf[len..] == was[len..] && buf[len] == buf[len..][0] && was[len] == was[len..][0];
        assert buf[len + 1..] == buf[len..][1..] && was[len + 1..] == was[len..][1..];
      }
      var complete, t := false, 0;
      ghost var start, latched := fifo.Contents(), fifo.status == FULL;
      stream, k := start, 0;
      ReadingStarts(start, latched, arrivals, buf[..], len);
      hide Items, Consistent, Complete, Reading, StopsAt, Unfinished, Stored, Heard, CellsBehind;
      var cur := 0;
      while cur < len && !complete && (t < |arrivals| || fifo.status != EMPTY)
        invariant fifo.Valid() && cur == k <= len && t <= |arrivals|
        invariant Reading(stream, start, latched, arrivals, t, fifo.Contents(), fifo.status == FULL, buf[..], len, k, complete)
        invariant CellsBehind(buf[..], was, len, k)
        decreases |arrivals| - t + len - cur
      {
        var took;
        complete, took, stream := Turn(buf, cur, len, arrivals, t, stream, start, latched, was);
        if t < |arrivals| {
          t := t + 1;
        }
        if took {
          cur, k := cur + 1, k + 1;
        }
      }
      done := complete || cur == len;
      ret := cur % 0x100;  // counted in a uint8_t
      ReadingEnds(stream, start, latched, arrivals, t, fifo.Contents(), fifo.status == FULL, buf[..], len, k, complete, done);
    }

    /** One turn of the loop of elm_read: bytes arrive, and one is taken if there is one. */
    method Turn(buf: array<Byte>, cur: nat, len: nat, arrivals: seq<seq<Byte>>, t: nat,
                ghost before: seq<Byte>, ghost start: seq<Byte>, ghost latched: bool, ghost first: seq<Byte>)
        returns (complete: bool, took: bool, ghost stream: seq<Byte>)
      requires fifo.Valid() && cur < len < buf.Length && buf != fifo.buf && t <= |arrivals|
      requires Reading(before, start, latched, arrivals, t, fifo.Contents(), fifo.status == FULL, buf[..], len, cur, false)
      requires CellsBehind(buf[..], first, len, cur)
      modifies fifo, fifo.buf, buf
      ensures fifo.Valid() && (t == |arrivals| && old(fifo.status) != EMPTY ==> took)
      ensures Reading(stream, start, latched, arrivals, if t < |arrivals| then t + 1 else t, fifo.Contents(), fifo.status == FULL,
                      buf[..], len, if took then cur + 1 else cur, complete)
      ensures CellsBehind(buf[..], first, len, if took then cur + 1 else cur)
    {
      stream, complete, took := before, false, false;
      hide Items, Consistent, Complete, Reading, Arrived, CellsBehind;
      ghost var rest, full, u := fifo.Contents(), fifo.status == FULL, t;
      if t < |arrivals| {
        ghost var taken := Receive(arrivals[t]);
        ReadingGrows(stream, start, latched, arrivals, t, rest, full, buf[..], len, cur, taken, fifo.status == FULL);
        stream, u := stream + taken, t + 1;
      }
      rest, full := fifo.Contents(), fifo.status == FULL;
      if fifo.status != EMPTY {
        ghost var was := buf[..];
        complete := Take(buf, cur);
        ReadingByte(stream, start, latched, arrivals, u, rest, full, was, len, cur, fifo.status == FULL);
        ByteBefore(was, first, len, cur, rest[0]);
        took := true;
      }
    }

    /** elm_command: a command goes out and the answer to it comes in. */
    method Command(cmd: seq<Byte>, buf: array<Byte>, len: nat, arrivals: seq<seq<Byte>>)
        returns (done: bool, ret: Byte, ghost stream: seq<Byte>, ghost k: nat)
      requires fifo.Valid() && len < buf.Length && buf != fifo.buf
      modifies fifo, fifo.buf, buf, uart
      ensures uart.sent == old(uart.sent) + Text(cmd)
      ensures fifo.Valid() && k <= len && ret == k % 0x100
      ensures Heard(stream, old(fifo.Contents()), old(fifo.status) == FULL, arrivals, done)
      ensures Stored(stream, fifo.Contents(), buf[..], len, k)
      ensures if done then StopsAt(stream, len, k) else k == |stream| && k < len && Unfinished(stream, k)
      ensures CellsBehind(buf[..], old(buf[..]), len, k)
    {
      hide *;
      uart.WriteStr(cmd);
      done, ret, stream, k := Read(buf, len, arrivals);
    }
  }

  /** memset(buf, 0, len) */
  method MemSet(buf: array<Byte>, len: nat)
    requires len <= buf.Length
    modifies buf
    ensures (forall j :: 0 <= j < len ==> buf[j] == NUL) && buf[len..] == old(buf[len..])
  {
    for i := 0 to len
      invariant (forall j :: 0 <= j < i ==> buf[j] == NUL) && buf[len..] == old(buf[len..])
    {
      buf[i] := NUL;
    }
  }

  // ---- interrupts inside fifo_read_byte ----

  lemma StopsWithin(stream: seq<Byte>, front: seq<Byte>, len: nat)
    requires front <= stream
    ensures StopsAt(front, len, |front|) <==> StopsAt(stream, len, |front|)
  {
    hide Complete;
    forall j | 0 <= j <= |front| ensures front[..j] == stream[..j] {
    }
  }

  /** Under every interleaving that fills the ring in no window the reader has consumed a prefix of
      what was accepted, and it stops there if and only if elm_read is to stop there. */
  lemma ReadUnderInterrupts(m: I.Machine, events: seq<I.Event>, n: nat, len: nat)
    requires I.Inv(m) && n <= |events| && I.RoomInEveryWindow(m, events, n)
    ensures var r := I.After(m, events, n);
            r.consumed <= r.accepted && (StopsAt(r.consumed, len, |r.consumed|) <==> StopsAt(r.accepted, len, |r.consumed|))
  {
    hide *;
    I.InvInRange(m);
    I.InterruptSafety(m, events, n);
    var r := I.After(m, events, n);
    StopsWithin(r.accepted, r.consumed, len);
  }

  /** It polls an EMPTY ring short of its stop only if bytes are hidden behind EMPTY, and with one
      accepted interrupt per window only if the stop is the very last byte accepted. */
  lemma WaitsOnlyIfHidden(m: I.Machine, events: seq<I.Event>, n: nat, len: nat, k: nat)
    requires I.Inv(m) && n <= |events| && I.RoomInEveryWindow(m, events, n)
    requires var r := I.After(m, events, n);
             r.ring.status == EMPTY && StopsAt(r.accepted, len, k) && |r.consumed| < k
    ensures var r := I.After(m, events, n); 0 < I.Pending(r) <= r.fired
    ensures I.HidesAtMostOne(m) && I.OncePerWindow(m, events, n) ==> k == |I.After(m, events, n).accepted|
  {
    I.InterruptSafety(m, events, n);
    if I.HidesAtMostOne(m) && I.OncePerWindow(m, events, n) {
      I.OnceIsSafe(m, events, n);
    }
    hide I.Inv, I.After, Complete, I.RoomInEveryWindow, I.OncePerWindow;
  }

  // ---- the cell behind the answer buffer ----

  /** Of the cells from `len` on only the first can be written: it gets the NUL behind byte `len`. */
  ghost predicate CellsBehind(now: seq<Byte>, was: seq<Byte>, len: nat, k: nat) {
    && |now| == |was| && k <= len < |now| && now[len + 1..] == was[len + 1..]
    && now[len] == if k == len && 0 < len then NUL else was[len]
  }

  lemma ByteBefore(now: seq<Byte>, was: seq<Byte>, len: nat, k: nat, b: Byte)
    requires CellsBehind(now, was, len, k) && k < len
    ensures CellsBehind(now[k := b][k + 1 := NUL], was, len, k + 1)
  {
  }

  /** elm_read writes behind a buffer of `len` bytes if and only if `len` bytes arrive and none of
      the first len - 1 is a prompt that no NUL precedes. */
  lemma OverrunIff(stream: seq<Byte>, len: nat, k: nat)
    requires StopsAt(stream, len, k) && 0 < len
    ensures k == len <==>
            len <= |stream| && forall i :: 0 <= i < len - 1 && stream[i] == 62 ==> 0 in stream[..i]
  {
    if len <= |stream| {
      if k == len {
        forall i | 0 <= i < len - 1 && stream[i] == PROMPT ensures NUL in stream[..i] {
          CompleteIff(stream[..i + 1]);
          assert stream[..i + 1][i] == PROMPT && stream[..i + 1][..i] == stream[..i];
        }
      } else {
        CompleteIff(stream[..k]);
        var i :| 0 <= i < k && stream[..k][i] == PROMPT && NUL !in stream[..k][..i];
        assert stream[..k][..i] == stream[..i];
      }
    }
    hide Complete;
  }

  /** So a full buffer that ends in the prompt is overrun as one without a prompt is. */
  lemma FullBufferOverruns(text: seq<Byte>, k: nat)
    requires NUL !in text && PROMPT !in text && StopsAt(text + [PROMPT], |text| + 1, k)
    ensures k == |text| + 1
  {
    OverrunIff(text + [PROMPT], |text| + 1, k);
    hide StopsAt;
  }

  // ---- what the interrupt puts into the ring ----

  /** The bytes that arrive in the first `t` turns. */
  function Arrived(arrivals: seq<seq<Byte>>, t: nat): seq<Byte>
    requires t <= |arrivals|
  {
    if t == 0 then [] else Arrived(arrivals, t - 1) + arrivals[t - 1]
  }

  /** Of every arrival the ring has taken the first bytes, perhaps not all. */
  ghost predicate TakenFrom(taken: seq<Byte>, arrivals: seq<seq<Byte>>, t: nat)
    requires t <= |arrivals|
    decreases t
  {
    if t == 0 then taken == []
    else exists n: nat :: n <= |taken| && taken[n..] <= arrivals[t - 1] && TakenFrom(taken[..n], arrivals, t - 1)
  }

  /** The stream is what was in the ring and what it took of some of the arrivals, of all if the
      reader did not finish; nothing is dropped if there is room for everything from the start. */
  ghost predicate Heard(stream: seq<Byte>, start: seq<Byte>, latched: bool, arrivals: seq<seq<Byte>>, done: bool) {
    start <= stream &&
    exists t: nat :: t <= |arrivals| && TakenFrom(stream[|start|..], arrivals, t) && (!done ==> t == |arrivals|)
                     && (RoomForAll(start, latched, arrivals) ==> stream == start + Arrived(arrivals, t))
  }

  predicate RoomForAll(start: seq<Byte>, latched: bool, arrivals: seq<seq<Byte>>) {
    !latched && |start| + |Arrived(arrivals, |arrivals|)| <= FIFO_SIZE
  }

  ghost predicate Feeding(stream: seq<Byte>, start: seq<Byte>, latched: bool, arrivals: seq<seq<Byte>>, t: nat,
                          rest: seq<Byte>, full: bool) {
    && start <= stream && t <= |arrivals| && TakenFrom(stream[|start|..], arrivals, t)
    && (RoomForAll(start, latched, arrivals) ==>
          && stream == start + Arrived(arrivals, t)
          && |rest| + |Arrived(arrivals, |arrivals|)| - |Arrived(arrivals, t)| <= FIFO_SIZE
          && (full ==> |Arrived(arrivals, t)| == |Arrived(arrivals, |arrivals|)|))
  }

  lemma FeedingStarts(start: seq<Byte>, latched: bool, arrivals: seq<seq<Byte>>)
    ensures Feeding(start, start, latched, arrivals, 0, start, latched)
  {
    assert start + [] == start;
  }

  lemma {:induction false} ArrivedGrows(arrivals: seq<seq<Byte>>, t: nat, u: nat)
    requires t <= u <= |arrivals|
    ensures Arrived(arrivals, t) <= Arrived(arrivals, u)
  {
    if t < u {
      ArrivedGrows(arrivals, t, u - 1);
    }
  }

  lemma FeedingGrows(stream: seq<Byte>, start: seq<Byte>, latched: bool, arrivals: seq<seq<Byte>>, t: nat,
                     rest: seq<Byte>, full: bool, taken: seq<Byte>, fullNow: bool)
    requires Feeding(stream, start, latched, arrivals, t, rest, full) && t < |arrivals| && taken <= arrivals[t]
    requires !full && |rest| + |arrivals[t]| <= FIFO_SIZE ==> taken == arrivals[t]
    requires fullNow ==> full || |rest + taken| == FIFO_SIZE
    ensures Feeding(stream + taken, start, latched, arrivals, t + 1, rest + taken, fullNow)
  {
    var n, now := |stream| - |start|, (stream + taken)[|start|..];
    assert now[..n] == stream[|start|..] && now[n..] == taken;
    ArrivedGrows(arrivals, t + 1, |arrivals|);
    if RoomForAll(start, latched, arrivals) {
      assert taken == arrivals[t];
      assert start + (Arrived(arrivals, t) + taken) == stream + taken;
    }
  }

  lemma FeedingDrains(stream: seq<Byte>, start: seq<Byte>, latched: bool, arrivals: seq<seq<Byte>>, t: nat,
                      rest: seq<Byte>, full: bool, now: seq<Byte>, fullNow: bool)
    requires Feeding(stream, start, latched, arrivals, t, rest, full) && |now| <= |rest| && (fullNow ==> full)
    ensures Feeding(stream, start, latched, arrivals, t, now, fullNow)
  {
    hide TakenFrom, Arrived;
  }

  lemma FeedingEnds(stream: seq<Byte>, start: seq<Byte>, latched: bool, arrivals: seq<seq<Byte>>, t: nat,
                    rest: seq<Byte>, full: bool, done: bool)
    requires Feeding(stream, start, latched, arrivals, t, rest, full) && (!done ==> t == |arrivals|)
    ensures Heard(stream, start, latched, arrivals, done)
  {
    hide TakenFrom, Arrived;
  }

  // ---- the loop of elm_read ----

  /** `k` bytes of the stream are in the buffer and the others still in the ring. */
  ghost predicate Stored(stream: seq<Byte>, rest: seq<Byte>, buf: seq<Byte>, len: nat, k: nat) {
    && k <= |stream| && k <= len < |buf| && rest == stream[k..] && buf[..k] == stream[..k]
    && (0 < len ==> buf[k] == NUL)
  }

  ghost predicate Unfinished(stream: seq<Byte>, k: nat) {
    k <= |stream| && forall j :: 0 < j <= k ==> !Complete(stream[..j])
  }

  ghost predicate Progress(stream: seq<Byte>, rest: seq<Byte>, buf: seq<Byte>, len: nat, k: nat, complete: bool) {
    Stored(stream, rest, buf, len, k) && if complete then StopsAt(stream, len, k) else Unfinished(stream, k)
  }

  lemma StoredStarts(stream: seq<Byte>, buf: seq<Byte>, len: nat)
    requires len < |buf| && (0 < len ==> buf[0] == NUL)
    ensures Progress(stream, stream, buf, len, 0, false)
  {
  }

  lemma StoredGrows(stream: seq<Byte>, rest: seq<Byte>, buf: seq<Byte>, len: nat, k: nat, taken: seq<Byte>)
    requires Progress(stream, rest, buf, len, k, false)
    ensures Progress(stream + taken, rest + taken, buf, len, k, false)
  {
    assert forall j :: 0 <= j <= k ==> (stream + taken)[..j] == stream[..j];
  }

  lemma StoredByte(stream: seq<Byte>, rest: seq<Byte>, buf: seq<Byte>, len: nat, k: nat)
    requires Progress(stream, rest, buf, len, k, false) && k < len < |buf|
    ensures rest != [] ==>
              var now := buf[k := rest[0]][k + 1 := NUL];
              Progress(stream, rest[1..], now, len, k + 1, Complete(now))
  {
    if rest != [] {
      var now := buf[k := rest[0]][k + 1 := NUL];
      assert stream[k] == rest[0];
      assert now[..k + 1] == buf[..k] + [rest[0]] == stream[..k + 1];
      BufferComplete(now, k + 1);
    }
  }

  /** The loop invariant of elm_read */
  ghost predicate Reading(stream: seq<Byte>, start: seq<Byte>, latched: bool, arrivals: seq<seq<Byte>>, t: nat,
                          rest: seq<Byte>, full: bool, buf: seq<Byte>, len: nat, k: nat, complete: bool) {
    Feeding(stream, start, latched, arrivals, t, rest, full) && Progress(stream, rest, buf, len, k, complete)
  }

  lemma ReadingStarts(start: seq<Byte>, latched: bool, arrivals: seq<seq<Byte>>, buf: seq<Byte>, len: nat)
    requires len < |buf| && (0 < len ==> buf[0] == NUL)
    ensures Reading(start, start, latched, arrivals, 0, start, latched, buf, len, 0, false)
  {
    hide Feeding;
    FeedingStarts(start, latched, arrivals);
    StoredStarts(start, buf, len);
  }

  lemma ReadingGrows(stream: seq<Byte>, start: seq<Byte>, latched: bool, arrivals: seq<seq<Byte>>, t: nat,
                     rest: seq<Byte>, full: bool, buf: seq<Byte>, len: nat, k: nat, taken: seq<Byte>, fullNow: bool)
    requires Reading(stream, start, latched, arrivals, t, rest, full, buf, len, k, false)
    requires t < |arrivals| && taken <= arrivals[t] && (!full && |rest| + |arrivals[t]| <= FIFO_SIZE ==> taken == arrivals[t])
    requires fullNow ==> full || |rest + taken| == FIFO_SIZE
    ensures Reading(stream + taken, start, latched, arrivals, t + 1, rest + taken, fullNow, buf, len, k, false)
  {
    hide Feeding, Progress;
    FeedingGrows(stream, start, latched, arrivals, t, rest, full, taken, fullNow);
    StoredGrows(stream, rest, buf, len, k, taken);
  }

  lemma ReadingByte(stream: seq<Byte>, start: seq<Byte>, latched: bool, arrivals: seq<seq<Byte>>, t: nat,
                    rest: seq<Byte>, full: bool, buf: seq<Byte>, len: nat, k: nat, fullNow: bool)
    requires Reading(stream, start, latched, arrivals, t, rest, full, buf, len, k, false)
    requires k < len < |buf| && rest != [] && (fullNow ==> full)
    ensures var now := buf[k := rest[0]][k + 1 := NUL];
            Reading(stream, start, latched, arrivals, t, rest[1..], fullNow, now, len, k + 1, Complete(now))
  {
    hide Feeding, Progress, Complete;
    FeedingDrains(stream, start, latched, arrivals, t, rest, full, rest[1..], fullNow);
    StoredByte(stream, rest, buf, len, k);
  }

  lemma ReadingEnds(stream: seq<Byte>, start: seq<Byte>, latched: bool, arrivals: seq<seq<Byte>>, t: nat,
                    rest: seq<Byte>, full: bool, buf: seq<Byte>, len: nat, k: nat, complete: bool, done: bool)
    requires Reading(stream, start, latched, arrivals, t, rest, full, buf, len, k, complete)
    requires done == (complete || k == len) && (!done ==> t == |arrivals| && rest == [])
    ensures Heard(stream, start, latched, arrivals, done) && Stored(stream, rest, buf, len, k)
    ensures if done then StopsAt(stream, len, k) else k == |stream| && k < len && Unfinished(stream, k)
  {
    hide Feeding, Heard, Complete;
    FeedingEnds(stream, start, latched, arrivals, t, rest, full, done);
  }
}
