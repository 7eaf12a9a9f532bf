/** src/fat.c: creating a file and appending to it through the two sector buffers, as functions
    of the io state. `stack` is what the uninitialised directory entry on the stack holds. */
module FatWrite {
  import opened Bytes
  import opened Store
  import opened Io
  import opened IoRefinement
  import opened FatLayout
  import opened FatAlloc

  /** fat32_update_file_size */
  function UpdateFileSize(s: IoState, g: Geometry, slot: U32, size: nat, stack: Entry): IoState {
    var (s1, e, _) := ReadBytes(s, EntryAddr(g, slot), stack, 32);
    WriteBytes(s1, EntryAddr(g, slot), WithSize(e, Wrap32(SizeOf(e) + size)), 32).0
  }

  /** fat32_write_file_nbytes: the results of the io calls are ignored. */
  function WriteFile(s: IoState, g: Geometry, f: File, buf: seq<Byte>, stack: Entry): (IoState, File) {
    var s1 := WriteBytes(s, f.currentByteOffset, buf, |buf|).0;
    var s2 := FlushIn(s1).0;
    var s3 := FlushOut(s2).0;
    (UpdateFileSize(s3, g, f.rootDirOffset, |buf|, stack),
     f.(currentByteOffset := Wrap32(f.currentByteOffset + |buf|)))
  }

  function AtStart(g: Geometry, f: File): File {
    var start := ClusterAddr(g, f.currentCluster);
    f.(startByteOffset := start, currentByteOffset := start)
  }

  /** fat32_creat_file */
  function CreatFile(s: IoState, g: Geometry, files: seq<File>, f: File): (IoState, File) {
    var i := FindFile(files, f.name, f.ext);
    if i < |files| then
      var c := files[i];
      (s, AtStart(g, f.(rootDirOffset := c.rootDirOffset, size := c.size, fatList := c.fatList,
                        currentCluster := c.currentCluster)))
    else
      var slot, cluster := Wrap32(NextSlot(files)), Wrap32(NextCluster(files));
      (WriteBytes(s, EntryAddr(g, slot), NewEntry(f.name, f.ext, cluster), 32).0,
       AtStart(g, f.(rootDirOffset := slot, size := 0, fatList := [], currentCluster := cluster)))
  }

  // ---- one directory entry never straddles two sectors ----

  lemma EntryInOneSector(g: Geometry, slot: U32)
    ensures EntryAddr(g, slot) % 512 + 32 <= 512
  {
    var x := g.rootDirSector * 16 + slot;
    var y := x % 0x800_0000;
    assert x == 0x800_0000 * (x / 0x800_0000) + y;
    assert EntryAddr(g, slot) == Wrap32(32 * x) == 32 * y;
    hide EntryAddr, Wrap32;
    assert y == 16 * (y / 16) + y % 16;
  }

  /** A write inside one sector writes the card at most once, and then the whole old view. */
  lemma {:induction false} SectorWrite(s: IoState, offset: U32, bs: seq<Byte>, n: nat)
    requires Wf(s) && s.faults == [] && 0 < n <= |bs| && offset + n <= ADDRESSABLE && offset + n <= Size(s.disk)
    requires offset % 512 + n <= 512
    ensures var t := WriteBytes(s, offset, bs, n).0;
            && t.outAddr == offset / 512
            && (s.outAddr == offset / 512 ==> t.disk == s.disk && t.images == s.images)
            && (s.outAddr != offset / 512 ==> t.disk == View(s) && t.images == s.images + [View(s)])
  {
    hide StoreByte;
    WriteBytesReliable(s, offset, bs, n - 1);
    WriteBytesStep(s, offset, bs, n);
    var s1 := WriteBytes(s, offset, bs, n - 1).0;
    if n > 1 {
      SectorWrite(s, offset, bs, n - 1);
    }
    StoreByteRefines(s1, offset + (n - 1), bs[n - 1]);
  }

  function EntryAt(d: Disk, a: nat): Entry
    requires a + 32 <= Size(d)
  {
    PeekAll(d, a, 32)
  }

  function AddSize(e: Entry, n: nat): Entry {
    WithSize(e, Wrap32(SizeOf(e) + n))
  }

  /** The card as seen through the read buffer. */
  function Seen(s: IoState): (d: Disk)
    requires Wf(s)
    ensures |d| == |s.disk|
  {
    s.disk[s.inAddr := s.inBuf]
  }

  /** Reading an entry moves the read buffer to its sector and takes what the buffers show. */
  lemma EntryRead(s: IoState, a: U32, stack: Entry)
    requires Wf(s) && s.faults == [] && a % 512 + 32 <= 512 && a + 32 <= ADDRESSABLE && a + 32 <= Size(s.disk)
    ensures var (t, e, ok) := ReadBytes(s, a, stack, 32);
            && ok && t == s.(inBuf := Seen(s)[a / 512], inAddr := a / 512)
            && e == EntryAt(Seen(s), a)
  {
    SectorRead(s, a, stack, 32);
    hide ReadBytes;
    var e := ReadBytes(s, a, stack, 32).1;
    forall i | 0 <= i < 32 ensures e[i] == Peek(Seen(s), a + i) {
      assert (a + i) / 512 == a / 512 && (a + i) % 512 == a % 512 + i;
    }
  }

  /** fat32_update_file_size updates the entry that the read buffer shows, which is the stored
      one only if that buffer holds another sector or a fresh copy. */
  lemma UpdateFileSizeExact(s: IoState, g: Geometry, slot: U32, n: nat, stack: Entry)
    requires Wf(s) && s.faults == [] && EntryAddr(g, slot) + 32 <= ADDRESSABLE && EntryAddr(g, slot) + 32 <= Size(s.disk)
    ensures var a := EntryAddr(g, slot);
            var t := UpdateFileSize(s, g, slot, n, stack);
            && Wf(t) && t.faults == [] && |t.disk| == |s.disk|
            && View(t) == PokeAll(View(s), a, AddSize(EntryAt(Seen(s), a), n))
            && t.inAddr == t.outAddr == a / 512
            && (s.outAddr == a / 512 ==> t.disk == s.disk && t.images == s.images)
            && (s.outAddr != a / 512 ==> t.disk == View(s) && t.images == s.images + [View(s)])
  {
    var a := EntryAddr(g, slot);
    EntryInOneSector(g, slot);
    EntryRead(s, a, stack);
    var (s1, e, _) := ReadBytes(s, a, stack, 32);
    assert View(s1) == View(s);
    assert UpdateFileSize(s, g, slot, n, stack) == WriteBytes(s1, a, AddSize(e, n), 32).0;
    hide UpdateFileSize, ReadBytes, WriteBytes, Seen, AddSize, PokeFirst, View, EntryAddr, EntryAt;
    WriteBytesReliable(s1, a, AddSize(e, n), 32);
    SectorWrite(s1, a, AddSize(e, n), 32);
  }

  /** The data goes to `cur`, clear of the sector that holds the entry at `a`. */
  ghost predicate Clear(a: nat, cur: nat, n: nat) {
    forall x :: cur <= x < cur + n ==> x / 512 != a / 512
  }

  ghost predicate Fits(d: Disk, a: nat, n: nat) {
    a + n <= ADDRESSABLE && a + n <= Size(d)
  }

  lemma PokeElsewhere(d: Disk, a: nat, cur: nat, buf: seq<Byte>)
    requires Fits(d, a, 32) && Fits(d, cur, |buf|) && a % 512 + 32 <= 512 && Clear(a, cur, |buf|)
    ensures PokeAll(d, cur, buf)[a / 512] == d[a / 512]
  {
    var e := PokeAll(d, cur, buf);
    forall i | 0 <= i < 512 ensures e[a / 512][i] == d[a / 512][i] {
      var x := a / 512 * 512 + i;
      PeekPokeAll(d, cur, buf, x);
      assert x / 512 == a / 512;
    }
  }

  lemma SameSectorSameEntry(d: Disk, e: Disk, a: nat)
    requires Fits(d, a, 32) && Fits(e, a, 32) && a % 512 + 32 <= 512 && d[a / 512] == e[a / 512]
    ensures EntryAt(d, a) == EntryAt(e, a)
  {
    forall x | a <= x < a + 32 ensures Peek(d, x) == Peek(e, x) {
      assert x / 512 == a / 512;
    }
  }

  /** True of the one case in which fat32_write_file_nbytes reads an outdated entry. */
  predicate StaleCase(s: IoState, a: nat, n: nat) {
    n == 0 && s.inAddr == a / 512 && s.outAddr == a / 512
  }

  /** The state in which fat32_write_file_nbytes calls fat32_update_file_size. */
  function Settled(s: IoState, cur: U32, buf: seq<Byte>): IoState {
    FlushOut(FlushIn(WriteBytes(s, cur, buf, |buf|).0).0).0
  }

  lemma WriteFileSettles(s: IoState, g: Geometry, f: File, buf: seq<Byte>, stack: Entry)
    ensures WriteFile(s, g, f, buf, stack).0 ==
            UpdateFileSize(Settled(s, f.currentByteOffset, buf), g, f.rootDirOffset, |buf|, stack)
  {
    hide UpdateFileSize, WriteBytes, FlushIn, FlushOut;
  }

  /** The data is on the card, and the entry sector seen is the stored one but in the stale case:
      moving on to a data sector has already written the dirty entry sector out. */
  lemma SettledExact(s: IoState, a: nat, cur: U32, buf: seq<Byte>)
    requires Wf(s) && s.faults == [] && a % 512 + 32 <= 512
    requires Fits(s.disk, a, 32) && Fits(s.disk, cur, |buf|) && Clear(a, cur, |buf|)
    ensures var t := Settled(s, cur, buf);
            && Wf(t) && t.faults == [] && |t.disk| == |s.disk|
            && t.disk == View(t) == PokeAll(View(s), cur, buf)
            && Seen(t)[a / 512] == (if StaleCase(s, a, |buf|) then s.disk else View(s))[a / 512]
  {
    hide StoreByte, Poke, PokeFirst;
    WriteBytesReliable(s, cur, buf, |buf|);
    PokeElsewhere(View(s), a, cur, buf);
    if |buf| > 0 {
      assert (cur + |buf| - 1) / 512 != a / 512;
    }
  }

  /** What one fat32_write_file_nbytes leaves on the card and in the view, for every length. */
  lemma WriteFileExact(s: IoState, g: Geometry, f: File, buf: seq<Byte>, stack: Entry)
    requires Wf(s) && s.faults == []
    requires Fits(s.disk, EntryAddr(g, f.rootDirOffset), 32) && Fits(s.disk, f.currentByteOffset, |buf|)
    requires Clear(EntryAddr(g, f.rootDirOffset), f.currentByteOffset, |buf|)
    ensures var a := EntryAddr(g, f.rootDirOffset);
            var (t, f1) := WriteFile(s, g, f, buf, stack);
            var base := if StaleCase(s, a, |buf|) then s.disk else View(s);
            && Wf(t) && t.faults == [] && |t.disk| == |s.disk| && t.inAddr == t.outAddr == a / 512
            && t.disk == PokeAll(View(s), f.currentByteOffset, buf)
            && View(t) == PokeAll(t.disk, a, AddSize(EntryAt(base, a), |buf|))
            && f1 == f.(currentByteOffset := f.currentByteOffset + |buf|)
  {
    var a := EntryAddr(g, f.rootDirOffset);
    var s3 := Settled(s, f.currentByteOffset, buf);
    WriteFileSettles(s, g, f, buf, stack);
    assert WriteFile(s, g, f, buf, stack).1 == f.(currentByteOffset := f.currentByteOffset + |buf|) by {
      hide WriteBytes, FlushIn, FlushOut, UpdateFileSize;
    }
    EntryInOneSector(g, f.rootDirOffset);
    SettledExact(s, a, f.currentByteOffset, buf);
    hide Settled, UpdateFileSize, Seen, WriteFile, EntryAddr, PokeAll, EntryAt, AddSize;
    UpdateFileSizeExact(s3, g, f.rootDirOffset, |buf|, stack);
    var base := if StaleCase(s, a, |buf|) then s.disk else View(s);
    SameSectorSameEntry(Seen(s3), base, a);
  }
}
