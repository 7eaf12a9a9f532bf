/** src/io.c: byte access to a card through one read buffer and one write-back buffer.
    Nothing in the source keeps the two buffers coherent, and both buffer addresses are
    uint16_t, so the model truncates a sector number to 16 bits wherever the source does. */
module Io {
  import opened Bytes
  import opened Store

  /** What the card does with one transfer. A failed write may leave anything in its sector. */
  datatype Outcome = Done | Failed(left: Sector)

  /** `faults` are the outcomes of the coming transfers (then all succeed);
      `images` are the contents of the card after every sector write so far. */
  datatype IoState = IoState(
    disk: Disk,
    inBuf: Sector, inAddr: U16,
    outBuf: Sector, outAddr: U16,
    faults: seq<Outcome>,
    images: seq<Disk>)

  /** Both buffers stand for a sector of the card. */
  predicate Wf(s: IoState) {
    s.inAddr < |s.disk| && s.outAddr < |s.disk|
  }

  /** The bytes a caller believes are stored: the card overlaid with the write buffer. */
  function View(s: IoState): (d: Disk)
    requires Wf(s)
    ensures |d| == |s.disk|
  {
    s.disk[s.outAddr := s.outBuf]
  }

  function Next(s: IoState): Outcome {
    if s.faults == [] then Done else s.faults[0]
  }

  function Used(s: IoState): IoState {
    s.(faults := if s.faults == [] then [] else s.faults[1..])
  }

  predicate CanRead(s: IoState, sector: nat) {
    sector < |s.disk| && Next(s).Done?
  }

  // ---- sd_get_sector into either buffer, sd_put_sector from the write buffer ----

  function LoadIn(s: IoState, sector: nat): (IoState, bool) {
    if CanRead(s, sector)
    then (Used(s).(inBuf := s.disk[sector], inAddr := sector % 0x1_0000), true)
    else (Used(s), false)
  }

  function LoadOut(s: IoState, sector: nat): (IoState, bool) {
    if CanRead(s, sector)
    then (Used(s).(outBuf := s.disk[sector], outAddr := sector % 0x1_0000), true)
    else (Used(s), false)
  }

  function StoreOut(s: IoState, written: Sector): IoState
    requires s.outAddr < |s.disk|
  {
    var d := s.disk[s.outAddr := written];
    Used(s).(disk := d, images := s.images + [d])
  }

  function FlushOut(s: IoState): (IoState, bool) {
    if s.outAddr >= |s.disk| then (Used(s), false)
    else match Next(s)
      case Done => (StoreOut(s, s.outBuf), true)
      case Failed(left) => (StoreOut(s, left), false)
  }

  function FlushIn(s: IoState): (IoState, bool) {
    LoadIn(s, s.inAddr)
  }

  // ---- bytes ----

  function FetchByte(s: IoState, offset: U32): (IoState, Byte, bool) {
    var r := if offset / 512 != s.inAddr then LoadIn(s, offset / 512) else (s, true);
    (r.0, r.0.inBuf[offset % 512], r.1)
  }

  function StoreByte(s: IoState, offset: U32, b: Byte): (IoState, bool) {
    if offset / 512 == s.outAddr then (s.(outBuf := s.outBuf[offset % 512 := b]), true)
    else
      var (s1, flushed) := FlushOut(s);
      if !flushed then (s1, false) else
      var (s2, loaded) := LoadOut(s1, offset / 512);
      if !loaded then (s2, false) else
      (s2.(outBuf := s2.outBuf[offset % 512 := b]), true)
  }

  /** The first `n` turns of io_read_nbytes into `buf`; a failed read ends the loop. */
  function ReadBytes(s: IoState, offset: U32, buf: seq<Byte>, n: nat): (r: (IoState, seq<Byte>, bool))
    requires n <= |buf|
    ensures |r.1| == |buf|
  {
    if n == 0 then (s, buf, true)
    else
      var (s1, buf1, ok) := ReadBytes(s, offset, buf, n - 1);
      if !ok then (s1, buf1, false)
      else
        var (s2, b, ok2) := FetchByte(s1, Wrap32(offset + (n - 1)));
        (s2, if ok2 then buf1[n - 1 := b] else buf1, ok2)
  }

  /** The first `n` turns of io_write_nbytes from `bs`. */
  function WriteBytes(s: IoState, offset: U32, bs: seq<Byte>, n: nat): (IoState, bool)
    requires n <= |bs|
  {
    if n == 0 then (s, true)
    else
      var (s1, ok) := WriteBytes(s, offset, bs, n - 1);
      if !ok then (s1, false) else StoreByte(s1, Wrap32(offset + (n - 1)), bs[n - 1])
  }

  /** How many of those bytes were put before the first failure. */
  function WriteCount(s: IoState, offset: U32, bs: seq<Byte>, n: nat): (k: nat)
    requires n <= |bs|
    ensures k <= n
    ensures WriteBytes(s, offset, bs, n).1 <==> k == n
  {
    if n == 0 then 0
    else if WriteBytes(s, offset, bs, n).1 then n
    else WriteCount(s, offset, bs, n - 1)
  }

  lemma {:induction false} FailedReadStays(s: IoState, offset: U32, buf: seq<Byte>, n: nat, m: nat)
    requires n <= m <= |buf| && !ReadBytes(s, offset, buf, n).2
    ensures ReadBytes(s, offset, buf, m) == ReadBytes(s, offset, buf, n)
  {
    if n < m {
      FailedReadStays(s, offset, buf, n, m - 1);
    }
  }

  lemma {:induction false} FailedWriteStays(s: IoState, offset: U32, bs: seq<Byte>, n: nat, m: nat)
    requires n <= m <= |bs| && !WriteBytes(s, offset, bs, n).1
    ensures WriteBytes(s, offset, bs, m) == WriteBytes(s, offset, bs, n)
  {
    if n < m {
      FailedWriteStays(s, offset, bs, n, m - 1);
    }
  }

  // ---- the objects the source updates in place ----

  /** The card behind src/sd.c, as a map of sectors. */
  class SdCard {
    var disk: Disk
    var faults: seq<Outcome>
    ghost var images: seq<Disk>

    constructor (disk: Disk, faults: seq<Outcome>)
      ensures this.disk == disk && this.faults == faults && images == []
    {
      this.disk := disk;
      this.faults := faults;
      images := [];
    }

    /** sd_get_sector: a failure leaves the destination alone. */
    method GetSector(addr: nat, buf: array<Byte>) returns (r: int)
      requires buf.Length == 512
      modifies this`faults, buf
      ensures faults == if old(faults) == [] then [] else old(faults)[1..]
      ensures r == if addr < |disk| && (old(faults) == [] || old(faults)[0].Done?) then 0 else -1
      ensures r == 0 ==> buf[..] == disk[addr]
      ensures r != 0 ==> buf[..] == old(buf[..])
    {
      var fault := Done;
      if faults != [] {
        fault := faults[0];
        faults := faults[1..];
      }
      if addr >= |disk| || fault.Failed? {
        return -1;
      }
      var sector := disk[addr];
      for i := 0 to 512
        modifies buf
        invariant forall j :: 0 <= j < i ==> buf[j] == sector[j]
      {
        buf[i] := sector[i];
      }
      r := 0;
    }

    /** sd_put_sector */
    method PutSector(addr: nat, buf: array<Byte>) returns (r: int)
      requires buf.Length == 512
      modifies this
      ensures faults == if old(faults) == [] then [] else old(faults)[1..]
      ensures addr >= |old(disk)| ==> r == -1 && disk == old(disk) && images == old(images)
      ensures addr < |old(disk)| && (old(faults) == [] || old(faults)[0].Done?) ==>
                r == 0 && disk == old(disk)[addr := buf[..]] && images == old(images) + [disk]
      ensures addr < |old(disk)| && old(faults) != [] && old(faults)[0].Failed? ==>
                r == -1 && disk == old(disk)[addr := old(faults)[0].left] && images == old(images) + [disk]
    {
      var fault := Done;
      if faults != [] {
        fault := faults[0];
        faults := faults[1..];
      }
      if addr >= |disk| {
        return -1;
      }
      match fault {
        case Done =>
          disk := disk[addr := buf[..]];
          r := 0;
        case Failed(left) =>
          disk := disk[addr := left];
          r := -1;
      }
      images := images + [disk];
    }
  }

  /** struct io_ctx */
  class IoCtx {
    var inputSectorAddr: U16
    const inputSectorBuf: array<Byte>
    var outputSectorAddr: U16
    const outputSectorBuf: array<Byte>
    const sd: SdCard

    ghost const Repr: set<object> := {this, inputSectorBuf, outputSectorBuf, sd}

    ghost predicate Valid() {
      inputSectorBuf.Length == 512 && outputSectorBuf.Length == 512 &&
      inputSectorBuf != outputSectorBuf
    }

    ghost function State(): IoState
      requires Valid()
      reads Repr
    {
      IoState(sd.disk, inputSectorBuf[..], inputSectorAddr, outputSectorBuf[..], outputSectorAddr,
              sd.faults, sd.images)
    }

    constructor (sd: SdCard)
      ensures Valid() && this.sd == sd
      ensures fresh(this) && fresh(inputSectorBuf) && fresh(outputSectorBuf)
    {
      this.sd := sd;
      inputSectorBuf := new Byte[512](_ => 0);
      outputSectorBuf := new Byte[512](_ => 0);
      inputSectorAddr := 0;
      outputSectorAddr := 0;
    }

    /** initialize_io: on success both buffers hold sector 0. */
    method Initialize() returns (r: int)
      requires Valid()
      modifies Repr
      ensures old(sd.faults) == [] && |sd.disk| > 0 ==> r == 0
      ensures r == 0 ==>
                var s := State();
                Wf(s) && s.inAddr == 0 && s.outAddr == 0 && s.inBuf == s.disk[0] && s.outBuf == s.disk[0]
      ensures sd.disk == old(sd.disk) && sd.images == old(sd.images)
    {
      r := sd.GetSector(0, inputSectorBuf);
      if r < 0 {
        return -1;
      }
      r := sd.GetSector(0, outputSectorBuf);
      if r < 0 {
        return -1;
      }
      inputSectorAddr := 0;
      outputSectorAddr := 0;
      r := 0;
    }

    /** io_get_byte, storing into buf[i] */
    method GetByte(offset: U32, buf: array<Byte>, i: nat) returns (r: int)
      requires Valid() && i < buf.Length && buf !in Repr
      modifies this`inputSectorAddr, inputSectorBuf, sd`faults, buf
      ensures var (s, b, ok) := FetchByte(old(State()), offset);
              State() == s && r == (if ok then 0 else -1) &&
              buf[..] == if ok then old(buf[..])[i := b] else old(buf[..])
    {
      var sectorAddr := offset / SECTOR_SIZE;
      if sectorAddr != inputSectorAddr {
        r := sd.GetSector(sectorAddr, inputSectorBuf);
        if r < 0 {
          return -1;
        }
        inputSectorAddr := sectorAddr % 0x1_0000;
      }
      buf[i] := inputSectorBuf[offset % SECTOR_SIZE];
      r := 0;
    }

    /** io_read_nbytes */
    method ReadNBytes(buf: array<Byte>, offset: U32) returns (r: int)
      requires Valid() && buf !in Repr
      modifies this`inputSectorAddr, inputSectorBuf, sd`faults, buf
      ensures var (s, bs, ok) := ReadBytes(old(State()), offset, old(buf[..]), buf.Length);
              State() == s && buf[..] == bs && r == if ok then 0 else -1
    {
      hide FetchByte;
      for i := 0 to buf.Length
        invariant ReadBytes(old(State()), offset, old(buf[..]), i) == (State(), buf[..], true)
      {
        r := GetByte(Wrap32(offset + i), buf, i);
        if r < 0 {
          FailedReadStays(old(State()), offset, old(buf[..]), i + 1, buf.Length);
          return -1;
        }
      }
      r := 0;
    }

    /** io_flush_read_buffer: reload the read buffer from the card */
    method FlushReadBuffer() returns (r: int)
      requires Valid()
      modifies inputSectorBuf, sd`faults
      ensures var (s, ok) := FlushIn(old(State())); State() == s && r == if ok then 0 else -1
    {
      r := sd.GetSector(inputSectorAddr, inputSectorBuf);
    }

    /** io_flush_write_buffer */
    method FlushWriteBuffer() returns (r: int)
      requires Valid()
      modifies sd
      ensures var (s, ok) := FlushOut(old(State())); State() == s && r == if ok then 0 else -1
    {
      r := sd.PutSector(outputSectorAddr, outputSectorBuf);
    }

    /** io_put_byte; the source forgets to return on success and the model returns 0 there */
    method PutByte(offset: U32, b: Byte) returns (r: int)
      requires Valid()
      modifies this`outputSectorAddr, outputSectorBuf, sd
      ensures var (s, ok) := StoreByte(old(State()), offset, b);
              State() == s && r == if ok then 0 else -1
    {
      var sectorAddr := offset / 512;
      if sectorAddr != outputSectorAddr {
        r := FlushWriteBuffer();
        if r < 0 {
          return -1;
        }
        r := sd.GetSector(sectorAddr, outputSectorBuf);
        if r < 0 {
          return -1;
        }
        outputSectorAddr := sectorAddr % 0x1_0000;
      }
      outputSectorBuf[offset % SECTOR_SIZE] := b;
      r := 0;
    }

    /** io_write_nbytes */
    method WriteNBytes(buf: seq<Byte>, offset: U32) returns (r: int)
      requires Valid()
      modifies this`outputSectorAddr, outputSectorBuf, sd
      ensures var (s, ok) := WriteBytes(old(State()), offset, buf, |buf|);
              State() == s && r == if ok then 0 else -1
    {
      hide StoreByte;
      for i := 0 to |buf|
        invariant WriteBytes(old(State()), offset, buf, i) == (State(), true)
      {
        r := PutByte(Wrap32(offset + i), buf[i]);
        if r < 0 {
          FailedWriteStays(old(State()), offset, buf, i + 1, |buf|);
          return -1;
        }
      }
      r := 0;
    }
  }
}
