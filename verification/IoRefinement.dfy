/** The write-back cache of src/io.c refines one flat array of bytes, whatever the card does. */
module IoRefinement {
  import opened Bytes
  import opened Store
  import opened Io

  /** Byte offsets whose sector number fits the uint16_t address of a buffer. */
  const ADDRESSABLE: nat := 0x200_0000

  /** io_put_byte is atomic in the view, and every sector it writes is the whole previous view. */
  lemma StoreByteRefines(s: IoState, offset: U32, b: Byte)
    requires Wf(s) && offset < ADDRESSABLE
    ensures var (t, ok) := StoreByte(s, offset, b);
            && Wf(t) && |t.disk| == |s.disk| && t.inBuf == s.inBuf && t.inAddr == s.inAddr
            && (ok ==> offset < Size(s.disk) && View(t) == Poke(View(s), offset, b) && t.outAddr == offset / 512)
            && (!ok ==> View(t) == View(s))
    ensures s.faults == [] && offset < Size(s.disk) ==>
              var (t, ok) := StoreByte(s, offset, b);
              && ok && t.faults == []
              && (offset / 512 == s.outAddr ==> t.disk == s.disk && t.images == s.images)
              && (offset / 512 != s.outAddr ==> t.disk == View(s) && t.images == s.images + [View(s)])
  {
  }

  /** One turn of io_write_nbytes. */
  lemma WriteBytesStep(s: IoState, offset: U32, bs: seq<Byte>, n: nat)
    requires 0 < n <= |bs| && offset + n <= ADDRESSABLE
    ensures var (s1, ok) := WriteBytes(s, offset, bs, n - 1);
            WriteBytes(s, offset, bs, n) == if ok then StoreByte(s1, offset + (n - 1), bs[n - 1]) else (s1, false)
  {
    hide StoreByte;
    assert Wrap32(offset + (n - 1)) == offset + (n - 1);
  }

  /** io_write_nbytes stores exactly the bytes put before the first failure. */
  lemma {:induction false} WriteBytesRefines(s: IoState, offset: U32, bs: seq<Byte>, n: nat)
    requires Wf(s) && n <= |bs| && offset + n <= ADDRESSABLE
    ensures var t, k := WriteBytes(s, offset, bs, n).0, WriteCount(s, offset, bs, n);
            && Wf(t) && |t.disk| == |s.disk|
            && (k > 0 ==> offset + k <= Size(s.disk))
            && View(t) == PokeFirst(View(s), offset, bs, k)
  {
    hide StoreByte, Poke, View, Wrap32;
    if n != 0 {
      WriteBytesRefines(s, offset, bs, n - 1);
      WriteBytesStep(s, offset, bs, n);
      var (s1, ok1) := WriteBytes(s, offset, bs, n - 1);
      if ok1 {
        StoreByteRefines(s1, offset + (n - 1), bs[n - 1]);
      }
    }
  }

  /** On a card that does not fail, all of it is stored, and the last sector stays buffered. */
  lemma {:induction false} WriteBytesReliable(s: IoState, offset: U32, bs: seq<Byte>, n: nat)
    requires Wf(s) && s.faults == [] && n <= |bs| && offset + n <= ADDRESSABLE
    requires offset + n <= Size(s.disk)
    ensures var (t, ok) := WriteBytes(s, offset, bs, n);
            && ok && Wf(t) && t.faults == [] && |t.disk| == |s.disk|
            && t.inBuf == s.inBuf && t.inAddr == s.inAddr
            && t.outAddr == (if n == 0 then s.outAddr else (offset + n - 1) / 512)
            && View(t) == PokeFirst(View(s), offset, bs, n)
  {
    hide StoreByte, Poke, View, Wrap32;
    if n != 0 {
      WriteBytesReliable(s, offset, bs, n - 1);
      WriteBytesStep(s, offset, bs, n);
      var s1 := WriteBytes(s, offset, bs, n - 1).0;
      StoreByteRefines(s1, offset + (n - 1), bs[n - 1]);
    }
  }

  lemma FlushOutRefines(s: IoState)
    requires Wf(s)
    ensures var (t, ok) := FlushOut(s);
            && Wf(t) && View(t) == View(s) && |t.disk| == |s.disk|
            && t.images == s.images + [t.disk]
            && (ok ==> t.disk == View(s))
            && (s.faults == [] ==> ok)
  {
  }

  // ---- whole runs ----

  datatype Op =
    | Write(offset: U32, data: seq<Byte>)
    | Flush
    | Read(start: U32, length: nat)
    | Refresh

  predicate InReach(op: Op) {
    match op
    case Write(offset, data) => offset + |data| <= ADDRESSABLE
    case Read(start, length) => start + length <= ADDRESSABLE
    case _ => true
  }

  function Step(s: IoState, op: Op): IoState {
    match op
    case Write(offset, data) => WriteBytes(s, offset, data, |data|).0
    case Flush => FlushOut(s).0
    case Read(start, length) => ReadBytes(s, start, seq(length, _ => 0), length).0
    case Refresh => FlushIn(s).0
  }

  function Run(s: IoState, ops: seq<Op>): IoState
    decreases |ops|
  {
    if ops == [] then s else Run(Step(s, ops[0]), ops[1..])
  }

  /** The operation cut down to the bytes that the card let through. */
  function Effect(s: IoState, op: Op): Op {
    match op
    case Write(offset, data) => Write(offset, data[..WriteCount(s, offset, data, |data|)])
    case _ => op
  }

  function Effects(s: IoState, ops: seq<Op>): seq<Op>
    decreases |ops|
  {
    if ops == [] then [] else [Effect(s, ops[0])] + Effects(Step(s, ops[0]), ops[1..])
  }

  /** The same operation on a flat array: only writes matter. */
  function FlatStep(d: Disk, op: Op): (d': Disk)
    ensures |d'| == |d|
  {
    if op.Write? && op.offset + |op.data| <= Size(d) then PokeAll(d, op.offset, op.data) else d
  }

  function FlatRun(d: Disk, ops: seq<Op>): Disk
    decreases |ops|
  {
    if ops == [] then d else FlatRun(FlatStep(d, ops[0]), ops[1..])
  }

  lemma StepRefines(s: IoState, op: Op)
    requires Wf(s) && InReach(op)
    ensures var t := Step(s, op);
            Wf(t) && |t.disk| == |s.disk| && View(t) == FlatStep(View(s), Effect(s, op))
    ensures s.faults == [] && (op.Write? ==> op.offset + |op.data| <= Size(s.disk)) ==> Effect(s, op) == op
    ensures s.faults == [] ==> Step(s, op).faults == []
  {
    match op
    case Write(offset, data) =>
      var k := WriteCount(s, offset, data, |data|);
      WriteBytesRefines(s, offset, data, |data|);
      PokeFirstPrefix(View(s), offset, data, k, k);
      if s.faults == [] {
        WriteBytesFaultFree(s, offset, data, |data|);
        if offset + |data| <= Size(s.disk) {
          WriteBytesReliable(s, offset, data, |data|);
        }
      }
    case Flush =>
    case Read(start, length) =>
      ReadBytesFrame(s, start, seq(length, _ => 0), length);
    case Refresh =>
  }

  lemma {:induction false} WriteBytesFaultFree(s: IoState, offset: U32, bs: seq<Byte>, n: nat)
    requires s.faults == [] && n <= |bs|
    ensures WriteBytes(s, offset, bs, n).0.faults == []
  {
    if n != 0 {
      WriteBytesFaultFree(s, offset, bs, n - 1);
    }
  }

  /** io_get_byte only moves the read buffer, and answers from the sector that buffer then holds. */
  lemma FetchByteFrame(s: IoState, offset: U32)
    requires Wf(s) && offset < ADDRESSABLE
    ensures var (t, b, ok) := FetchByte(s, offset);
            && Wf(t) && t == s.(inBuf := t.inBuf, inAddr := t.inAddr, faults := t.faults)
            && (if ok && offset / 512 != s.inAddr
                then offset < Size(s.disk) && t.inAddr == offset / 512 && t.inBuf == s.disk[t.inAddr]
                else t.inAddr == s.inAddr && t.inBuf == s.inBuf)
            && (ok ==> t.inAddr == offset / 512 && b == t.inBuf[offset % 512])
            && (s.faults == [] ==> t.faults == [] && (ok <==> offset < Size(s.disk)))
  {
  }

  /** Reading never touches the card, the write buffer or the history. */
  lemma {:induction false} ReadBytesFrame(s: IoState, offset: U32, buf: seq<Byte>, n: nat)
    requires Wf(s) && n <= |buf| && offset + n <= ADDRESSABLE
    ensures var t := ReadBytes(s, offset, buf, n).0;
            && t == s.(inBuf := t.inBuf, inAddr := t.inAddr, faults := t.faults) && Wf(t)
            && (s.faults == [] ==> t.faults == [])
  {
    hide FetchByte;
    if n != 0 {
      ReadBytesFrame(s, offset, buf, n - 1);
      var (s1, _, ok) := ReadBytes(s, offset, buf, n - 1);
      if ok {
        var o := Wrap32(offset + (n - 1));
        FetchByteFrame(s1, o);
        assert ReadBytes(s, offset, buf, n).0 == FetchByte(s1, o).0;
      }
    }
  }

  // ---- what a read sees ----

  /** The read buffer agrees with the card. */
  predicate Coherent(s: IoState) {
    s.inAddr < |s.disk| && s.inBuf == s.disk[s.inAddr]
  }

  /** One turn of io_read_nbytes. */
  lemma ReadBytesStep(s: IoState, offset: U32, buf: seq<Byte>, n: nat)
    requires 0 < n <= |buf| && offset + n <= ADDRESSABLE
    ensures var (s1, buf1, ok) := ReadBytes(s, offset, buf, n - 1);
            if !ok then ReadBytes(s, offset, buf, n) == (s1, buf1, false)
            else var (t, b, ok2) := FetchByte(s1, offset + (n - 1));
                 ReadBytes(s, offset, buf, n) == (t, if ok2 then buf1[n - 1 := b] else buf1, ok2)
  {
    hide FetchByte;
    assert Wrap32(offset + (n - 1)) == offset + (n - 1);
  }

  /** With a coherent read buffer a successful read is the card's own bytes. */
  lemma {:induction false} CoherentRead(s: IoState, offset: U32, buf: seq<Byte>, n: nat)
    requires Wf(s) && Coherent(s) && n <= |buf| && offset + n <= ADDRESSABLE
    ensures var (t, out, ok) := ReadBytes(s, offset, buf, n);
            && t == s.(inBuf := t.inBuf, inAddr := t.inAddr, faults := t.faults) && Wf(t) && Coherent(t)
            && (ok && n > 0 ==> offset + n <= Size(s.disk))
            && (ok ==> forall i :: 0 <= i < n ==> out[i] == Peek(s.disk, offset + i))
            && (forall i :: n <= i < |buf| ==> out[i] == buf[i])
            && (s.faults == [] ==> t.faults == [] && (n == 0 || offset + n <= Size(s.disk) ==> ok))
  {
    hide FetchByte;
    if n != 0 {
      CoherentRead(s, offset, buf, n - 1);
      ReadBytesStep(s, offset, buf, n);
      var (s1, out1, ok) := ReadBytes(s, offset, buf, n - 1);
      if ok {
        FetchByteFrame(s1, offset + (n - 1));
      }
    }
  }

  /** A read inside one sector, from a card that does not fail, whatever the buffer held. */
  lemma {:induction false} SectorRead(s: IoState, offset: U32, buf: seq<Byte>, n: nat)
    requires Wf(s) && s.faults == [] && 0 < n <= |buf| && offset + n <= ADDRESSABLE && offset + n <= Size(s.disk)
    requires offset % 512 + n <= 512
    ensures var (t, out, ok) := ReadBytes(s, offset, buf, n);
            var sector := if s.inAddr == offset / 512 then s.inBuf else s.disk[offset / 512];
            && ok && t == s.(inBuf := sector, inAddr := offset / 512)
            && (forall i :: 0 <= i < n ==> out[i] == sector[offset % 512 + i])
            && (forall i :: n <= i < |buf| ==> out[i] == buf[i])
  {
    hide FetchByte;
    if n > 1 {
      SectorRead(s, offset, buf, n - 1);
    }
    ReadBytesStep(s, offset, buf, n);
    var s1 := ReadBytes(s, offset, buf, n - 1).0;
    FetchByteFrame(s1, offset + (n - 1));
  }

  /** For every run and every failure of the card, the view is the flat array updated with
      exactly the bytes that went through; without failures those are all the bytes. */
  lemma {:induction false} RunRefines(s: IoState, ops: seq<Op>)
    requires Wf(s) && forall op | op in ops :: InReach(op)
    ensures var t := Run(s, ops); Wf(t) && View(t) == FlatRun(View(s), Effects(s, ops))
    ensures s.faults == [] && (forall op | op in ops && op.Write? :: op.offset + |op.data| <= Size(s.disk)) ==>
              Effects(s, ops) == ops
    decreases |ops|
  {
    if ops != [] {
      hide Step;
      hide FlatStep;
      StepRefines(s, ops[0]);
      RunRefines(Step(s, ops[0]), ops[1..]);
      var e := Effects(s, ops);
      assert e[1..] == Effects(Step(s, ops[0]), ops[1..]);
      assert ops == [ops[0]] + ops[1..];
    }
  }

  /** Flushing at the end of a run leaves the flat array on the card itself. */
  lemma FlushedRunIsFlat(s: IoState, ops: seq<Op>)
    requires Wf(s) && s.faults == []
    requires forall op | op in ops :: InReach(op) && (op.Write? ==> op.offset + |op.data| <= Size(s.disk))
    ensures FlushOut(Run(s, ops)).0.disk == FlatRun(View(s), ops)
  {
    RunRefines(s, ops);
    RunFaultFree(s, ops);
    FlushOutRefines(Run(s, ops));
  }

  lemma {:induction false} RunFaultFree(s: IoState, ops: seq<Op>)
    requires Wf(s) && s.faults == [] && forall op | op in ops :: InReach(op)
    ensures Run(s, ops).faults == []
    decreases |ops|
  {
    if ops != [] {
      StepRefines(s, ops[0]);
      RunFaultFree(Step(s, ops[0]), ops[1..]);
    }
  }

  // ---- stale reads ----

  /** A sector write since image `m` changed the sector that the read buffer holds. */
  ghost predicate Overwritten(s: IoState, m: nat) {
    exists k :: m <= k < |s.images| && s.inAddr < |s.images[k]| && s.images[k][s.inAddr] != s.inBuf
  }

  ghost predicate CoherentOrOverwritten(s: IoState, m: nat) {
    Wf(s) && m <= |s.images| && (Coherent(s) || Overwritten(s, m))
  }

  lemma FlushOutStaleness(s: IoState, m: nat)
    requires CoherentOrOverwritten(s, m)
    ensures CoherentOrOverwritten(FlushOut(s).0, m)
  {
    var t := FlushOut(s).0;
    assert t.images[|s.images|] == t.disk;
    if Overwritten(s, m) {
      var k :| m <= k < |s.images| && s.inAddr < |s.images[k]| && s.images[k][s.inAddr] != s.inBuf;
      assert t.images[k] == s.images[k];
    }
  }

  lemma StoreByteStaleness(s: IoState, offset: U32, b: Byte, m: nat)
    requires CoherentOrOverwritten(s, m) && offset < ADDRESSABLE
    ensures CoherentOrOverwritten(StoreByte(s, offset, b).0, m)
  {
    if offset / 512 != s.outAddr {
      FlushOutStaleness(s, m);
      var f := FlushOut(s).0;
      var t := StoreByte(s, offset, b).0;
      assert t.images == f.images && t.inAddr == f.inAddr && t.inBuf == f.inBuf && t.disk == f.disk;
    }
  }

  lemma {:induction false} WriteBytesStaleness(s: IoState, offset: U32, bs: seq<Byte>, n: nat, m: nat)
    requires CoherentOrOverwritten(s, m) && n <= |bs| && offset + n <= ADDRESSABLE
    ensures CoherentOrOverwritten(WriteBytes(s, offset, bs, n).0, m)
  {
    hide StoreByte;
    hide CoherentOrOverwritten;
    if n != 0 {
      WriteBytesStaleness(s, offset, bs, n - 1, m);
      WriteBytesStep(s, offset, bs, n);
      var (s1, ok1) := WriteBytes(s, offset, bs, n - 1);
      if ok1 {
        StoreByteStaleness(s1, offset + (n - 1), bs[n - 1], m);
      }
    }
  }

  /** Some turn of a read fills the read buffer from the card. */
  predicate ReadLoads(s: IoState, offset: U32, buf: seq<Byte>, n: nat)
    requires n <= |buf|
  {
    n > 0 &&
    var (s1, _, ok) := ReadBytes(s, offset, buf, n - 1);
    var sector := Wrap32(offset + (n - 1)) / 512;
    ReadLoads(s, offset, buf, n - 1) || (ok && sector != s1.inAddr && CanRead(s1, sector))
  }

  lemma {:induction false} ReadBytesStaleness(s: IoState, offset: U32, buf: seq<Byte>, n: nat, m: nat)
    requires CoherentOrOverwritten(s, m) && n <= |buf| && offset + n <= ADDRESSABLE
    ensures var t := ReadBytes(s, offset, buf, n).0;
            t.images == s.images && CoherentOrOverwritten(t, if ReadLoads(s, offset, buf, n) then |s.images| else m)
  {
    hide CoherentOrOverwritten, FetchByte, CanRead;
    if n != 0 {
      ReadBytesStaleness(s, offset, buf, n - 1, m);
      ReadBytesStep(s, offset, buf, n);
      var (s1, _, ok) := ReadBytes(s, offset, buf, n - 1);
      assert Wrap32(offset + (n - 1)) == offset + (n - 1);
      if ok {
        FetchByteStaleness(s1, offset + (n - 1), if ReadLoads(s, offset, buf, n - 1) then |s.images| else m);
      }
    }
  }

  lemma FetchByteStaleness(s: IoState, offset: U32, m: nat)
    requires CoherentOrOverwritten(s, m) && offset < ADDRESSABLE
    ensures var t := FetchByte(s, offset).0;
            && t.images == s.images && CoherentOrOverwritten(t, m)
            && (offset / 512 != s.inAddr && CanRead(s, offset / 512) ==> CoherentOrOverwritten(t, |s.images|))
  {
  }

  /** The number of card images when the read buffer was last filled; `m` for what it holds at the start. */
  function LoadedAt(s: IoState, op: Op, m: nat): nat {
    match op
    case Read(start, length) => if ReadLoads(s, start, seq(length, _ => 0), length) then |s.images| else m
    case Refresh => if FlushIn(s).1 then |s.images| else m
    case _ => m
  }

  function LastLoad(s: IoState, ops: seq<Op>, m: nat): nat
    decreases |ops|
  {
    if ops == [] then m else LastLoad(Step(s, ops[0]), ops[1..], LoadedAt(s, ops[0], m))
  }

  lemma StepStaleness(s: IoState, op: Op, m: nat)
    requires CoherentOrOverwritten(s, m) && InReach(op)
    ensures CoherentOrOverwritten(Step(s, op), LoadedAt(s, op, m))
  {
    match op {
      case Write(offset, data) => WriteBytesStaleness(s, offset, data, |data|, m);
      case Flush => FlushOutStaleness(s, m);
      case Read(start, length) => ReadBytesStaleness(s, start, seq(length, _ => 0), length, m);
      case Refresh => RefreshStaleness(s, m);
    }
    hide CoherentOrOverwritten, ReadBytes, WriteBytes, ReadLoads;
  }

  /** Over every run, the read buffer differs from the card only if some sector write after it
      was last filled changed the very sector it holds. */
  lemma {:induction false} StaleOnlyIfOverwritten(s: IoState, ops: seq<Op>, m: nat)
    requires CoherentOrOverwritten(s, m) && forall op | op in ops :: InReach(op)
    ensures CoherentOrOverwritten(Run(s, ops), LastLoad(s, ops, m))
    decreases |ops|
  {
    hide CoherentOrOverwritten, Step, LoadedAt;
    if ops != [] {
      assert InReach(ops[0]);
      StepStaleness(s, ops[0], m);
      StaleOnlyIfOverwritten(Step(s, ops[0]), ops[1..], LoadedAt(s, ops[0], m));
    }
  }

  lemma RefreshStaleness(s: IoState, m: nat)
    requires CoherentOrOverwritten(s, m)
    ensures CoherentOrOverwritten(FlushIn(s).0, if FlushIn(s).1 then |s.images| else m)
    ensures FlushIn(s).1 ==> Coherent(FlushIn(s).0)
  {
  }

  // ---- the 16-bit sector address ----

  /** The put of one byte does what the flat array does. */
  predicate PutRefines(s: IoState, offset: U32, b: Byte)
    requires Wf(s) && offset < Size(s.disk)
  {
    var (t, ok) := StoreByte(s, offset, b);
    ok && Wf(t) && View(t) == Poke(View(s), offset, b)
  }

  /** A card and offset beyond 2^25 on which the put lands in the wrong sector. */
  function BlankState(sectors: nat): IoState {
    IoState(seq(sectors, _ => seq(512, _ => 0)), seq(512, _ => 0), 0, seq(512, _ => 0), 0, [], [])
  }

  lemma WrongSector(offset: U32)
    requires offset >= ADDRESSABLE
    ensures var s := BlankState(offset / 512 + 1); Wf(s) && !PutRefines(s, offset, 1)
  {
    var s := BlankState(offset / 512 + 1);
    var (t, ok) := StoreByte(s, offset, 1);
    assert View(s) == s.disk;
    assert t.outAddr == offset / 512 % 0x1_0000 < offset / 512;
    assert View(t)[offset / 512] == s.disk[offset / 512];
    assert Poke(View(s), offset, 1)[offset / 512][offset % 512] == 1;
  }

  /** Where the byte goes instead: beyond 2^25 the whole sector, with the byte in it, takes the place of
      the sector with that number modulo 65536. */
  lemma PutWrapsAround(s: IoState, offset: U32, b: Byte)
    requires Wf(s) && s.faults == [] && offset < Size(s.disk) && offset >= ADDRESSABLE
    ensures var (t, ok) := StoreByte(s, offset, b);
            var sector := offset / 512;
            && ok && Wf(t) && |t.disk| == |s.disk| && t.outAddr == sector % 0x1_0000 && sector % 0x1_0000 < sector
            && View(t) == View(s)[sector % 0x1_0000 := View(s)[sector][offset % 512 := b]]
  {
  }

  /** Likewise a read beyond 2^25 leaves the buffer under the wrong number, and the next read from the
      address modulo 2^25 is answered with the byte from the first one. */
  lemma GetWrapsAround(s: IoState, offset: U32)
    requires Wf(s) && s.faults == [] && offset < Size(s.disk) && offset >= ADDRESSABLE
    ensures var (t, b, ok) := FetchByte(s, offset);
            var (u, c, again) := FetchByte(t, offset % 0x200_0000);
            ok && b == Peek(s.disk, offset) && again && c == b && u == t
  {
    assert offset % 0x200_0000 / 512 == offset / 512 % 0x1_0000 && offset % 0x200_0000 % 512 == offset % 512;
  }

  /** On a card that does not fail, io_put_byte refines the flat array at an offset, from
      every state and for every byte, exactly when the offset is below 2^25. */
  lemma PutRefinesIffAddressable(offset: U32)
    ensures (forall s, b: Byte | Wf(s) && s.faults == [] && offset < Size(s.disk) :: PutRefines(s, offset, b))
            <==> offset < ADDRESSABLE
  {
    if offset < ADDRESSABLE {
      forall s, b: Byte | Wf(s) && s.faults == [] && offset < Size(s.disk) ensures PutRefines(s, offset, b) {
        StoreByteRefines(s, offset, b);
      }
    } else {
      WrongSector(offset);
      var s := BlankState(offset / 512 + 1);
      assert Wf(s) && s.faults == [] && offset < Size(s.disk) && !PutRefines(s, offset, 1);
    }
  }
}
