/** Crash consistency of the logger: the card may lose power at any sector write. */
module FatCrash {
  import opened Bytes
  import opened Store
  import opened Io
  import opened IoRefinement
  import opened FatLayout
  import opened FatAlloc
  import opened FatWrite
  import opened FatRuns

  /** The card holds the entry that begins with `head`, and the size in it counts only bytes of
      `log` that are on the card. */
  ghost predicate Durable(d: Disk, a: nat, head: seq<Byte>, start: nat, log: seq<Byte>) {
    && Fits(d, a, 32) && EntryAt(d, a)[..28] == head
    && SizeOf(EntryAt(d, a)) <= |log| && start + SizeOf(EntryAt(d, a)) <= Size(d)
    && PeekAll(d, start, SizeOf(EntryAt(d, a))) == log[..SizeOf(EntryAt(d, a))]
  }

  ghost predicate AllDurable(images: seq<Disk>, base: nat, a: nat, head: seq<Byte>, start: nat, log: seq<Byte>) {
    forall k :: base <= k < |images| ==> Durable(images[k], a, head, start, log)
  }

  lemma DurableGrows(d: Disk, a: nat, head: seq<Byte>, start: nat, log: seq<Byte>, more: seq<Byte>)
    requires Durable(d, a, head, start, log)
    ensures Durable(d, a, head, start, log + more)
  {
    var n := SizeOf(EntryAt(d, a));
    hide EntryAt, SizeOf;
    assert (log + more)[..n] == log[..n];
  }

  lemma ImagesGrow(images: seq<Disk>, base: nat, a: nat, head: seq<Byte>, start: nat, log: seq<Byte>, more: seq<Byte>)
    requires AllDurable(images, base, a, head, start, log)
    ensures AllDurable(images, base, a, head, start, log + more)
  {
    hide Durable;
    forall k | base <= k < |images| ensures Durable(images[k], a, head, start, log + more) {
      DurableGrows(images[k], a, head, start, log, more);
    }
  }

  lemma DurablePoke(d: Disk, a: nat, head: seq<Byte>, start: nat, log: seq<Byte>, x: nat, b: Byte)
    requires Durable(d, a, head, start, log) && a % 512 + 32 <= 512
    requires start + |log| <= x < Size(d) && x / 512 != a / 512
    ensures Durable(Poke(d, x, b), a, head, start, log)
  {
    var e := Poke(d, x, b);
    SameSectorSameEntry(d, e, a);
    var n := SizeOf(EntryAt(d, a));
    hide EntryAt, SizeOf, Poke;
    forall y | start <= y < start + n ensures Peek(e, y) == Peek(d, y) {
      PeekPoke(d, x, b, y);
    }
    assert PeekAll(e, start, n) == PeekAll(d, start, n);
  }

  /** The view is durable, and so is every image since `base`. */
  ghost predicate Safe(s: IoState, base: nat, a: nat, head: seq<Byte>, start: nat, log: seq<Byte>) {
    && Wf(s) && s.faults == [] && base <= |s.images|
    && Durable(View(s), a, head, start, log) && AllDurable(s.images, base, a, head, start, log)
  }

  lemma StoreByteSafe(s: IoState, x: U32, b: Byte, base: nat, a: nat, head: seq<Byte>, start: nat, log: seq<Byte>)
    requires Safe(s, base, a, head, start, log) && x < ADDRESSABLE
    requires start + |log| <= x < Size(s.disk) && a % 512 + 32 <= 512 && x / 512 != a / 512
    ensures var (t, ok) := StoreByte(s, x, b);
            ok && |t.disk| == |s.disk| && Safe(t, base, a, head, start, log) && |s.images| <= |t.images|
  {
    StoreByteRefines(s, x, b);
    DurablePoke(View(s), a, head, start, log, x, b);
    hide StoreByte, Durable, Poke, View;
  }

  /** The first `n` bytes went through and left a safe state. */
  ghost predicate SafelyWritten(s: IoState, offset: U32, bs: seq<Byte>, n: nat, base: nat,
                                a: nat, head: seq<Byte>, start: nat, log: seq<Byte>)
    requires n <= |bs|
  {
    var (t, ok) := WriteBytes(s, offset, bs, n);
    ok && |t.disk| == |s.disk| && Safe(t, base, a, head, start, log) && |s.images| <= |t.images|
  }

  lemma SafelyWrittenStep(s: IoState, offset: U32, bs: seq<Byte>, n: nat, base: nat,
                          a: nat, head: seq<Byte>, start: nat, log: seq<Byte>)
    requires 0 < n <= |bs| && Fits(s.disk, offset, n) && a % 512 + 32 <= 512 && start + |log| <= offset
    requires (offset + (n - 1)) / 512 != a / 512 && SafelyWritten(s, offset, bs, n - 1, base, a, head, start, log)
    ensures SafelyWritten(s, offset, bs, n, base, a, head, start, log)
  {
    hide Safe, StoreByte;
    WriteBytesStep(s, offset, bs, n);
    StoreByteSafe(WriteBytes(s, offset, bs, n - 1).0, offset + (n - 1), bs[n - 1], base, a, head, start, log);
  }

  /** Putting data bytes behind the log keeps every image and the view durable. */
  lemma {:induction false} WriteBytesSafe(s: IoState, offset: U32, bs: seq<Byte>, n: nat, base: nat,
                                          a: nat, head: seq<Byte>, start: nat, log: seq<Byte>)
    requires Safe(s, base, a, head, start, log) && n <= |bs| && Fits(s.disk, offset, n)
    requires a % 512 + 32 <= 512 && Clear(a, offset, n) && start + |log| <= offset
    ensures SafelyWritten(s, offset, bs, n, base, a, head, start, log)
  {
    if n == 0 {
      hide Safe;
    } else {
      assert (offset + (n - 1)) / 512 != a / 512 && Clear(a, offset, n - 1);
      hide SafelyWritten;
      WriteBytesSafe(s, offset, bs, n - 1, base, a, head, start, log);
      SafelyWrittenStep(s, offset, bs, n, base, a, head, start, log);
    }
  }

  /** What holds between two writes: the view has all of `log`, and every image since `base`
      has a prefix of it. */
  ghost predicate Logging(s: IoState, g: Geometry, f: File, room: nat, base: nat, head: seq<Byte>, start: nat, log: seq<Byte>) {
    && Placed(s, g, f, room) && f.currentByteOffset == start + |log|
    && Safe(s, base, EntryAddr(g, f.rootDirOffset), head, start, log)
    && SizeOf(EntryAt(View(s), EntryAddr(g, f.rootDirOffset))) == |log|
  }

  lemma FlushSafe(s: IoState, base: nat, a: nat, head: seq<Byte>, start: nat, log: seq<Byte>)
    requires Safe(s, base, a, head, start, log)
    ensures var t := FlushOut(FlushIn(s).0).0;
            && Safe(t, base, a, head, start, log) && |s.images| < |t.images|
            && t.disk == View(t) == t.images[|t.images| - 1]
  {
    hide Durable;
    var t := FlushOut(FlushIn(s).0).0;
    assert t.images == s.images + [View(s)] && t.disk == View(s) == View(t);
  }

  /** Writing the data and flushing leaves only safe images. */
  lemma SettledSafe(s: IoState, a: nat, cur: U32, buf: seq<Byte>, base: nat, head: seq<Byte>, start: nat, log: seq<Byte>)
    requires Safe(s, base, a, head, start, log) && a % 512 + 32 <= 512
    requires Fits(s.disk, cur, |buf|) && Clear(a, cur, |buf|) && start + |log| <= cur
    ensures var t := Settled(s, cur, buf);
            && Safe(t, base, a, head, start, log) && |s.images| < |t.images|
            && t.disk == View(t) == t.images[|t.images| - 1]
  {
    WriteBytesSafe(s, cur, buf, |buf|, base, a, head, start, log);
    hide Safe, WriteBytes, FlushOut, FlushIn;
    FlushSafe(WriteBytes(s, cur, buf, |buf|).0, base, a, head, start, log);
  }

  lemma UpdateSafe(s: IoState, g: Geometry, slot: U32, n: nat, stack: Entry, base: nat,
                   head: seq<Byte>, start: nat, log: seq<Byte>)
    requires Safe(s, base, EntryAddr(g, slot), head, start, log)
    requires 0 < |s.images| && s.disk == View(s) == s.images[|s.images| - 1]
    ensures var t := UpdateFileSize(s, g, slot, n, stack);
            && AllDurable(t.images, base, EntryAddr(g, slot), head, start, log)
            && |s.images| <= |t.images| && t.images[|t.images| - 1] == t.disk
  {
    UpdateFileSizeExact(s, g, slot, n, stack);
    hide UpdateFileSize, EntryAddr, Durable, View, PokeAll, AddSize, EntryAt;
  }

  /** The images one fat32_write_file_nbytes leaves are all consistent with the log before it. */
  lemma WriteFileImages(s: IoState, g: Geometry, f: File, buf: seq<Byte>, stack: Entry, base: nat,
                        head: seq<Byte>, start: nat, log: seq<Byte>)
    requires Logging(s, g, f, |buf|, base, head, start, log)
    ensures var t := WriteFile(s, g, f, buf, stack).0;
            && AllDurable(t.images, base, EntryAddr(g, f.rootDirOffset), head, start, log)
            && |s.images| < |t.images| && t.images[|t.images| - 1] == t.disk
  {
    WriteFileSettles(s, g, f, buf, stack);
    EntryInOneSector(g, f.rootDirOffset);
    hide Settled, WriteFile, UpdateFileSize, EntryAddr, SizeOf, View, EntryAt, Clear, AllDurable, Durable;
    SettledSafe(s, EntryAddr(g, f.rootDirOffset), f.currentByteOffset, buf, base, head, start, log);
    UpdateSafe(Settled(s, f.currentByteOffset, buf), g, f.rootDirOffset, |buf|, stack, base, head, start, log);
  }

  lemma AddSizeFields(e: Entry, n: nat)
    requires SizeOf(e) + n <= ADDRESSABLE
    ensures AddSize(e, n)[..28] == e[..28] && SizeOf(AddSize(e, n)) == SizeOf(e) + n
  {
    hide SizeOf, WithSize;
    assert Wrap32(SizeOf(e) + n) == SizeOf(e) + n;
    WithSizeFields(e, SizeOf(e) + n, 0);
  }

  lemma LoggedSize(d: Disk, e: Disk, a: nat, head: seq<Byte>, start: nat, log: seq<Byte>, buf: seq<Byte>)
    requires Fits(d, a, 32) && a % 512 + 32 <= 512 && Clear(a, start + |log|, |buf|)
    requires EntryAt(d, a)[..28] == head && SizeOf(EntryAt(d, a)) == |log| && |log| + |buf| <= ADDRESSABLE
    requires Logged(d, e, a, start + |log|, buf)
    ensures EntryAt(e, a)[..28] == head && SizeOf(EntryAt(e, a)) == |log + buf|
  {
    LoggedEntry(d, e, a, start + |log|, buf);
    hide EntryAt, Clear, Logged, Fits;
    AddSizeFields(EntryAt(d, a), |buf|);
    hide SizeOf, AddSize;
  }

  lemma LoggedIsDurable(d: Disk, e: Disk, a: nat, head: seq<Byte>, start: nat, log: seq<Byte>, buf: seq<Byte>)
    requires Durable(d, a, head, start, log) && SizeOf(EntryAt(d, a)) == |log| && a % 512 + 32 <= 512
    requires start + |log| + |buf| <= ADDRESSABLE && start + |log| + |buf| <= Size(d) && Clear(a, start, |log| + |buf|)
    requires Logged(d, e, a, start + |log|, buf)
    ensures Durable(e, a, head, start, log + buf) && SizeOf(EntryAt(e, a)) == |log + buf|
  {
    assert Clear(a, start + |log|, |buf|);
    assert PeekAll(d, start, |log|) == log;
    hide EntryAt, SizeOf, Clear, Logged, PeekAll;
    LoggedSize(d, e, a, head, start, log, buf);
    LoggedRegion(d, e, a, start, log, buf);
    assert (log + buf)[..|log + buf|] == log + buf;
  }

  lemma LoggedRegion(d: Disk, e: Disk, a: nat, start: nat, log: seq<Byte>, buf: seq<Byte>)
    requires Fits(d, a, 32) && start + |log| + |buf| <= Size(d) && a % 512 + 32 <= 512 && Clear(a, start, |log| + |buf|)
    requires PeekAll(d, start, |log|) == log && Logged(d, e, a, start + |log|, buf)
    ensures |e| == |d| && PeekAll(e, start, |log + buf|) == log + buf
  {
    ClearApart(a, start, |log| + |buf|);
    var all := log + buf;
    hide EntryAt, AddSize, Clear;
    forall x | start <= x < start + |all| ensures Peek(e, x) == all[x - start] {
      assert Peek(e, x) == LoggedByte(d, a, start + |log|, buf, x);
      if x < start + |log| {
        assert PeekAll(d, start, |log|)[x - start] == Peek(d, x);
      }
    }
  }

  lemma LoggingFits(s: IoState, g: Geometry, f: File, room: nat, base: nat, head: seq<Byte>, start: nat, log: seq<Byte>)
    requires Logging(s, g, f, room, base, head, start, log)
    ensures start + |log| + room <= ADDRESSABLE && start + |log| + room <= Size(s.disk) && Wf(s) && |View(s)| == |s.disk|
    ensures Size(View(s)) == Size(s.disk) && EntryAddr(g, f.rootDirOffset) + 32 <= Size(s.disk)
    ensures Durable(View(s), EntryAddr(g, f.rootDirOffset), head, start, log) && base <= |s.images|
    ensures f.currentByteOffset == start + |log| && SizeOf(EntryAt(View(s), EntryAddr(g, f.rootDirOffset))) == |log|
  {
    hide EntryAddr, Durable, AllDurable, EntryAt, SizeOf, View, Clear;
  }

  lemma LoggingLessRoom(s: IoState, g: Geometry, f: File, n: nat, room: nat, base: nat, head: seq<Byte>, start: nat, log: seq<Byte>)
    requires Logging(s, g, f, n + room, base, head, start, log)
    ensures Placed(s, g, f, n + room) && Logging(s, g, f, n, base, head, start, log)
  {
    LessRoom(s, g, f, n, room);
    hide Safe, Clear, EntryAddr, EntryAt, SizeOf, View;
  }

  /** One non-empty write: every image it leaves is durable for the longer log as well. */
  lemma LoggingStep(s: IoState, g: Geometry, f: File, buf: seq<Byte>, room: nat, stack: Entry, base: nat,
                    head: seq<Byte>, start: nat, log: seq<Byte>)
    requires Logging(s, g, f, |buf| + room, base, head, start, log) && buf != []
    requires Clear(EntryAddr(g, f.rootDirOffset), start, |log| + |buf|)
    ensures var (t, f1) := WriteFile(s, g, f, buf, stack);
            && f1.rootDirOffset == f.rootDirOffset
            && Logging(t, g, f1, room, base, head, start, log + buf)
            && |s.images| < |t.images| && t.images[|t.images| - 1] == t.disk
  {
    var a := EntryAddr(g, f.rootDirOffset);
    EntryInOneSector(g, f.rootDirOffset);
    LoggingFits(s, g, f, |buf| + room, base, head, start, log);
    LoggingLessRoom(s, g, f, |buf|, room, base, head, start, log);
    hide WriteFile, Durable, EntryAddr, EntryAt, SizeOf, Logged, View, Clear, AllDurable, Fits, Placed, Logging, Safe;
    WriteFileStep(s, g, f, buf, room, stack);
    var (t, f1) := WriteFile(s, g, f, buf, stack);
    WriteFileImages(s, g, f, buf, stack, base, head, start, log);
    LoggedIsDurable(View(s), View(t), a, head, start, log, buf);
    ImagesGrow(t.images, base, a, head, start, log, buf);
    StillLogging(t, g, f1, room, base, head, start, log + buf);
  }

  lemma StillLogging(t: IoState, g: Geometry, f: File, room: nat, base: nat, head: seq<Byte>, start: nat, log: seq<Byte>)
    requires Placed(t, g, f, room) && f.currentByteOffset == start + |log| && base <= |t.images|
    requires var a := EntryAddr(g, f.rootDirOffset); Durable(View(t), a, head, start, log) && AllDurable(t.images, base, a, head, start, log)
    requires SizeOf(EntryAt(View(t), EntryAddr(g, f.rootDirOffset))) == |log|
    ensures Logging(t, g, f, room, base, head, start, log)
  {
    hide EntryAddr, Durable, AllDurable, EntryAt, SizeOf, View, Clear;
  }

  /** After `n` non-empty writes that follow a state with an empty log. */
  ghost predicate LoggedRun(s: IoState, g: Geometry, f: File, bufs: seq<seq<Byte>>, n: nat, room: nat, stack: Entry,
                            base: nat, head: seq<Byte>)
    requires n <= |bufs|
  {
    var (t, f1) := WriteAll(s, g, f, bufs, n, stack);
    && f1.rootDirOffset == f.rootDirOffset
    && Logging(t, g, f1, room, base, head, f.currentByteOffset, Concat(bufs, n))
    && |s.images| + n <= |t.images| && (n > 0 ==> t.images[|t.images| - 1] == t.disk)
  }

  lemma LoggedRunStep(s: IoState, g: Geometry, f: File, bufs: seq<seq<Byte>>, n: nat, room: nat, stack: Entry,
                      base: nat, head: seq<Byte>)
    requires 0 < n <= |bufs| && bufs[n - 1] != []
    requires Clear(EntryAddr(g, f.rootDirOffset), f.currentByteOffset, |Concat(bufs, n)|)
    requires LoggedRun(s, g, f, bufs, n - 1, |bufs[n - 1]| + room, stack, base, head)
    ensures LoggedRun(s, g, f, bufs, n, room, stack, base, head)
  {
    hide Logging, WriteFile, Clear, EntryAddr;
    var (s1, f1) := WriteAll(s, g, f, bufs, n - 1, stack);
    LoggingStep(s1, g, f1, bufs[n - 1], room, stack, base, head, f.currentByteOffset, Concat(bufs, n - 1));
  }

  lemma {:induction false} LoggedRunHolds(s: IoState, g: Geometry, f: File, bufs: seq<seq<Byte>>, n: nat, room: nat, stack: Entry,
                                          base: nat, head: seq<Byte>)
    requires n <= |bufs| && forall i :: 0 <= i < n ==> bufs[i] != []
    requires Placed(s, g, f, |Concat(bufs, n)| + room) && Logging(s, g, f, |Concat(bufs, n)| + room, base, head, f.currentByteOffset, [])
    ensures LoggedRun(s, g, f, bufs, n, room, stack, base, head)
  {
    hide Logging;
    if n != 0 {
      assert Clear(EntryAddr(g, f.rootDirOffset), f.currentByteOffset, |Concat(bufs, n)|);
      hide LoggedRun, Clear, EntryAddr, Fits;
      LoggedRunHolds(s, g, f, bufs, n - 1, |bufs[n - 1]| + room, stack, base, head);
      LoggedRunStep(s, g, f, bufs, n, room, stack, base, head);
    }
  }

  /** At every image since `base` the entry counts only bytes of the log that are on the card,
      and each write has left an image; the last one is the card. */
  ghost predicate CrashSafe(s: IoState, t: IoState, n: nat, base: nat, a: nat, head: seq<Byte>, start: nat, log: seq<Byte>) {
    && AllDurable(t.images, base, a, head, start, log)
    && |s.images| + n <= |t.images| && (n > 0 ==> t.images[|t.images| - 1] == t.disk)
  }

  lemma LoggedRunMeans(s: IoState, g: Geometry, f: File, bufs: seq<seq<Byte>>, n: nat, room: nat, stack: Entry,
                       base: nat, head: seq<Byte>)
    requires n <= |bufs| && LoggedRun(s, g, f, bufs, n, room, stack, base, head)
    ensures CrashSafe(s, WriteAll(s, g, f, bufs, n, stack).0, n, base, EntryAddr(g, f.rootDirOffset), head, f.currentByteOffset,
                      Concat(bufs, n))
  {
    hide AllDurable, Durable, WriteAll, EntryAddr, Concat, Placed, EntryAt, SizeOf;
  }

  // ---- a new file ----

  /** fat32_creat_file on a name that is not cached: the entry is stored in the view, and the
      buffer that holds it has not been flushed yet. */
  lemma CreatExact(s: IoState, g: Geometry, files: seq<File>, f: File)
    requires Wf(s) && s.faults == [] && FindFile(files, f.name, f.ext) == |files|
    requires Fits(s.disk, EntryAddr(g, Wrap32(NextSlot(files))), 32)
    ensures var (t, f1) := CreatFile(s, g, files, f);
            var a := EntryAddr(g, f1.rootDirOffset);
            && f1.rootDirOffset == Wrap32(NextSlot(files)) && f1.currentCluster == Wrap32(NextCluster(files))
            && f1.currentByteOffset == f1.startByteOffset == ClusterAddr(g, f1.currentCluster)
            && Wf(t) && t.faults == [] && |t.disk| == |s.disk| && t.outAddr == a / 512
            && View(t) == PokeAll(View(s), a, NewEntry(f.name, f.ext, f1.currentCluster))
            && EntryAt(View(t), a) == NewEntry(f.name, f.ext, f1.currentCluster)
  {
    var slot, cluster := Wrap32(NextSlot(files)), Wrap32(NextCluster(files));
    var a, e := EntryAddr(g, slot), NewEntry(f.name, f.ext, cluster);
    EntryInOneSector(g, slot);
    hide StoreByte, NewEntry, NextSlot, NextCluster, FindFile;
    WriteBytesReliable(s, a, e, 32);
    SectorWrite(s, a, e, 32);
    PeekAllPokeAll(View(s), a, e);
  }

  /** The entry that a create leaves in the cache decodes to what was asked for, and the cluster
      split over two fields recombines. */
  lemma CreatedEntry(s: IoState, g: Geometry, files: seq<File>, f: File)
    requires Wf(s) && s.faults == [] && FindFile(files, f.name, f.ext) == |files|
    requires Fits(s.disk, EntryAddr(g, Wrap32(NextSlot(files))), 32)
    ensures var (t, f1) := CreatFile(s, g, files, f);
            Wf(t) && |t.disk| == |s.disk| && f1.rootDirOffset == Wrap32(NextSlot(files))
    ensures var (t, f1) := CreatFile(s, g, files, f);
            var e := EntryAt(View(t), EntryAddr(g, f1.rootDirOffset));
            && FirstClusterOf(e) == f1.currentCluster && SizeOf(e) == 0
            && StrNEq(NameOf(e), f.name) && StrNEq(ExtOf(e), f.ext)
  {
    CreatExact(s, g, files, f);
    hide NextSlot, NextCluster, FindFile, NewEntry, StrNEq, FirstClusterOf, SizeOf, WriteBytes;
    NewEntryFields(f.name, f.ext, CreatFile(s, g, files, f).1.currentCluster);
  }

  /** A create does not enter the new file into the cached list, so the next new file gets the
      same slot and cluster and its entry replaces the first one's. */
  lemma SecondCreateReplacesFirst(s: IoState, g: Geometry, files: seq<File>, f: File, h: File)
    requires Wf(s) && s.faults == [] && Fits(s.disk, EntryAddr(g, Wrap32(NextSlot(files))), 32)
    requires FindFile(files, f.name, f.ext) == |files| && FindFile(files, h.name, h.ext) == |files|
    ensures var (t, f1) := CreatFile(s, g, files, f);
            var (u, h1) := CreatFile(t, g, files, h);
            && h1.rootDirOffset == f1.rootDirOffset == Wrap32(NextSlot(files)) && h1.currentCluster == f1.currentCluster
            && Wf(u) && |u.disk| == |s.disk|
            && EntryAt(View(u), EntryAddr(g, f1.rootDirOffset)) == NewEntry(h.name, h.ext, f1.currentCluster)
  {
    hide NextSlot, NextCluster, FindFile, NewEntry, CreatFile, EntryAddr, ClusterAddr, View, PokeAll, EntryAt;
    CreatExact(s, g, files, f);
    CreatExact(CreatFile(s, g, files, f).0, g, files, h);
  }

  /** Entries made for the same cluster are equal exactly when neither name can be told from the
      other. */
  lemma SameEntryIff(a: Name, x: Ext, b: Name, y: Ext, cluster: U32)
    ensures NewEntry(a, x, cluster) == NewEntry(b, y, cluster) <==> StrNEq(a, b) && StrNEq(x, y)
  {
    SameNameIffSameField(a, b);
    SameNameIffSameField(x, y);
    var d, e := NewEntry(a, x, cluster), NewEntry(b, y, cluster);
    assert d[0..8] == StrNCpy(a) && d[8..11] == StrNCpy(x) && e[0..8] == StrNCpy(b) && e[8..11] == StrNCpy(y);
    hide StrNEq;
  }

  lemma ReopenWritesNothing(s: IoState, g: Geometry, files: seq<File>, h: File)
    requires FindFile(files, h.name, h.ext) < |files|
    ensures CreatFile(s, g, files, h).0 == s
  {
  }

  /** The entry of a new file with `n` bytes logged is the one that a create of `h` would store for
      the same cluster exactly when the names are the same and nothing is logged. */
  lemma LoggedEntryIff(f: File, h: File, cluster: U32, n: nat)
    requires n <= ADDRESSABLE
    ensures AddSize(NewEntry(f.name, f.ext, cluster), n) == NewEntry(h.name, h.ext, cluster) <==>
            StrNEq(f.name, h.name) && StrNEq(f.ext, h.ext) && n == 0
  {
    NewEntryFields(f.name, f.ext, cluster);
    NewEntryFields(h.name, h.ext, cluster);
    SameEntryIff(f.name, f.ext, h.name, h.ext, cluster);
    hide NewEntry, AddSize, SizeOf, StrNEq, FirstClusterOf, NameOf, ExtOf, AttrOf;
    AddSizeFields(NewEntry(f.name, f.ext, cluster), n);
    AddSizeTwice(NewEntry(f.name, f.ext, cluster), 0, 0);
  }

  lemma CreateAgain(t: IoState, g: Geometry, files: seq<File>, f: File, h: File, n: nat)
    requires Wf(t) && t.faults == [] && Fits(t.disk, EntryAddr(g, Wrap32(NextSlot(files))), 32) && n <= ADDRESSABLE
    requires EntryAt(View(t), EntryAddr(g, Wrap32(NextSlot(files)))) == AddSize(NewEntry(f.name, f.ext, Wrap32(NextCluster(files))), n)
    ensures var u, a := CreatFile(t, g, files, h).0, EntryAddr(g, Wrap32(NextSlot(files)));
            && Wf(u) && |u.disk| == |t.disk|
            && (EntryAt(View(u), a) == EntryAt(View(t), a) <==>
                FindFile(files, h.name, h.ext) < |files| || (StrNEq(f.name, h.name) && StrNEq(f.ext, h.ext) && n == 0))
  {
    if FindFile(files, h.name, h.ext) == |files| {
      CreatExact(t, g, files, h);
      LoggedEntryIff(f, h, Wrap32(NextCluster(files)), n);
    } else {
      ReopenWritesNothing(t, g, files, h);
    }
    hide *;
  }

  /** After a new file `f` and any non-empty writes to it, creating `h` leaves the entry of `f`
      alone if and only if `h` is a cached file, or has the name of `f` and nothing was written. */
  lemma FirstEntrySurvivesIff(s: IoState, g: Geometry, files: seq<File>, f: File, bufs: seq<seq<Byte>>, stack: Entry,
                              c: IoState, f1: File, h: File)
    requires FindFile(files, f.name, f.ext) == |files| && (c, f1) == CreatFile(s, g, files, f)
    requires Placed(s, g, f1, |Concat(bufs, |bufs|)|) && forall i :: 0 <= i < |bufs| ==> bufs[i] != []
    ensures var t := WriteAll(c, g, f1, bufs, |bufs|, stack).0;
            var u := CreatFile(t, g, files, h).0;
            var a := EntryAddr(g, f1.rootDirOffset);
            && Wf(t) && Wf(u) && |u.disk| == |t.disk| == |s.disk|
            && (EntryAt(View(u), a) == EntryAt(View(t), a) <==>
                FindFile(files, h.name, h.ext) < |files| ||
                (StrNEq(f.name, h.name) && StrNEq(f.ext, h.ext) && Concat(bufs, |bufs|) == []))
  {
    hide *;
    var log, a := Concat(bufs, |bufs|), EntryAddr(g, f1.rootDirOffset);
    CreatNumbers(s, g, files, f);
    PlacedMeans(s, g, f1, |log|);
    CreatExact(s, g, files, f);
    StillPlaced(s, g, f1, |log|, c);
    var t := WriteAll(c, g, f1, bufs, |bufs|, stack).0;
    RunSoFar(c, g, f1, bufs, |bufs|, 0, stack);
    SameSizeFits(s.disk, t.disk, a, 32);
    LogFits(s, g, f1, |log|);
    CreateAgain(t, g, files, f, h, |log|);
  }

  lemma LogFits(s: IoState, g: Geometry, f: File, n: nat)
    requires Placed(s, g, f, n)
    ensures n <= ADDRESSABLE
  {
  }

  lemma SameSizeFits(d: Disk, e: Disk, a: nat, n: nat)
    requires |d| == |e|
    ensures Fits(d, a, n) <==> Fits(e, a, n)
  {
  }

  /** The entry after a run of non-empty writes */
  lemma RunSoFar(s: IoState, g: Geometry, f: File, bufs: seq<seq<Byte>>, n: nat, room: nat, stack: Entry)
    requires n <= |bufs| && Placed(s, g, f, |Concat(bufs, n)| + room) && forall i :: 0 <= i < n ==> bufs[i] != []
    ensures var (t, f1) := WriteAll(s, g, f, bufs, n, stack);
            var a := EntryAddr(g, f.rootDirOffset);
            && Placed(t, g, f1, room) && f1.rootDirOffset == f.rootDirOffset && Wf(s) && Wf(t) && t.faults == [] && |t.disk| == |s.disk|
            && Fits(s.disk, a, 32) && EntryAt(View(t), a) == AddSize(EntryAt(View(s), a), |Concat(bufs, n)|)
  {
    var a, log := EntryAddr(g, f.rootDirOffset), Concat(bufs, n);
    EntryInOneSector(g, f.rootDirOffset);
    Conservation(s, g, f, bufs, n, room, stack);
    assert Clear(a, f.currentByteOffset, |log|);
    hide WriteAll, EntryAddr, EntryAt, AddSize, Logged, Concat, View, Clear;
    LoggedEntry(View(s), View(WriteAll(s, g, f, bufs, n, stack).0), a, f.currentByteOffset, log);
  }

  lemma EmptyLog(s: IoState, g: Geometry, f: File, n: nat, head: seq<Byte>)
    requires Placed(s, g, f, n)
    requires var e := EntryAt(View(s), EntryAddr(g, f.rootDirOffset)); e[..28] == head && SizeOf(e) == 0
    ensures Logging(s, g, f, n, |s.images|, head, f.currentByteOffset, [])
  {
    hide EntryAddr, View, EntryAt, SizeOf, Clear;
    assert PeekAll(View(s), f.currentByteOffset, 0) == [];
  }

  lemma CreatStartsLogging(s: IoState, g: Geometry, files: seq<File>, f: File, n: nat, c: IoState, f1: File)
    requires FindFile(files, f.name, f.ext) == |files| && (c, f1) == CreatFile(s, g, files, f) && Placed(s, g, f1, n)
    ensures f1.currentByteOffset == f1.startByteOffset && Placed(c, g, f1, n)
    ensures Logging(c, g, f1, n, |c.images|, NewEntry(f.name, f.ext, f1.currentCluster)[..28], f1.startByteOffset, [])
  {
    CreatNumbers(s, g, files, f);
    PlacedMeans(s, g, f1, n);
    hide *;
    CreatExact(s, g, files, f);
    NewEntryFields(f.name, f.ext, f1.currentCluster);
    StillPlaced(s, g, f1, n, c);
    EmptyLog(c, g, f1, n, NewEntry(f.name, f.ext, f1.currentCluster)[..28]);
  }

  lemma PlacedMeans(s: IoState, g: Geometry, f: File, n: nat)
    requires Placed(s, g, f, n)
    ensures Wf(s) && s.faults == [] && Fits(s.disk, EntryAddr(g, f.rootDirOffset), 32)
    ensures EntryAddr(g, f.rootDirOffset) + 32 <= Size(View(s))
  {
    hide EntryAddr, View, Clear;
  }

  lemma StillPlaced(s: IoState, g: Geometry, f: File, n: nat, c: IoState)
    requires Placed(s, g, f, n) && Wf(c) && c.faults == [] && |c.disk| == |s.disk|
    ensures Placed(c, g, f, n) && Wf(c) && Fits(View(c), EntryAddr(g, f.rootDirOffset), 32)
  {
    hide EntryAddr, Clear, View;
  }

  lemma CreatNumbers(s: IoState, g: Geometry, files: seq<File>, f: File)
    requires FindFile(files, f.name, f.ext) == |files|
    ensures CreatFile(s, g, files, f).1.rootDirOffset == Wrap32(NextSlot(files))
  {
    hide NextSlot, NextCluster, FindFile, EntryAddr, NewEntry, WriteBytes, ClusterAddr;
  }

  /** Crash consistency. A new file is created and any non-empty buffers are written to it; the
      power may fail after any sector write from the first flush of the new entry on. Whatever
      is then on the card, the entry is the one created, its size never exceeds the data bytes
      on the card, and those bytes are a prefix of the buffers' concatenation. */
  lemma CrashConsistency(s: IoState, g: Geometry, files: seq<File>, f: File, bufs: seq<seq<Byte>>, stack: Entry,
                         c: IoState, f1: File)
    requires FindFile(files, f.name, f.ext) == |files| && (c, f1) == CreatFile(s, g, files, f)
    requires Placed(s, g, f1, |Concat(bufs, |bufs|)|) && forall i :: 0 <= i < |bufs| ==> bufs[i] != []
    ensures var t := WriteAll(c, g, f1, bufs, |bufs|, stack).0;
            CrashSafe(c, t, |bufs|, |c.images|, EntryAddr(g, f1.rootDirOffset),
                      NewEntry(f.name, f.ext, f1.currentCluster)[..28], f1.startByteOffset, Concat(bufs, |bufs|))
  {
    var head := NewEntry(f.name, f.ext, f1.currentCluster)[..28];
    hide *;
    CreatStartsLogging(s, g, files, f, |Concat(bufs, |bufs|)|, c, f1);
    LoggedRunHolds(c, g, f1, bufs, |bufs|, 0, stack, |c.images|, head);
    LoggedRunMeans(c, g, f1, bufs, |bufs|, 0, stack, |c.images|, head);
  }

  // ---- how far behind the card is ----

  /** Every image that is new in `t` holds the entry that the view of `s` has at `a`. */
  ghost predicate Steady(s: IoState, t: IoState, a: nat)
    requires Wf(s) && Fits(s.disk, a, 32)
  {
    && Wf(t) && t.faults == [] && |t.disk| == |s.disk| && s.images <= t.images
    && forall k :: |s.images| <= k < |t.images| ==> |t.images[k]| == |s.disk| && EntryAt(t.images[k], a) == EntryAt(View(s), a)
  }

  /** The same, and the view's entry is still the old one. */
  ghost predicate Unmoved(s: IoState, t: IoState, a: nat)
    requires Wf(s) && Fits(s.disk, a, 32)
  {
    Steady(s, t, a) && EntryAt(View(t), a) == EntryAt(View(s), a)
  }

  lemma UnmovedThen(s: IoState, t: IoState, u: IoState, a: nat)
    requires Wf(s) && Fits(s.disk, a, 32) && Unmoved(s, t, a) && Steady(t, u, a)
    ensures Steady(s, u, a) && (Unmoved(t, u, a) ==> Unmoved(s, u, a))
  {
    hide EntryAt, View;
    forall k | |s.images| <= k < |u.images|
      ensures |u.images[k]| == |s.disk| && EntryAt(u.images[k], a) == EntryAt(View(s), a)
    {
      assert k < |t.images| ==> u.images[k] == t.images[k];
    }
  }

  lemma StoreByteUnmoved(s: IoState, x: U32, b: Byte, a: nat)
    requires Wf(s) && s.faults == [] && Fits(s.disk, a, 32) && a % 512 + 32 <= 512
    requires x < ADDRESSABLE && x < Size(s.disk) && x / 512 != a / 512
    ensures Unmoved(s, StoreByte(s, x, b).0, a)
  {
    StoreByteRefines(s, x, b);
    SameSectorSameEntry(Poke(View(s), x, b), View(s), a);
    hide StoreByte, View, EntryAt, Poke;
  }

  lemma OneMoreUnmoved(s: IoState, t: IoState, x: U32, b: Byte, a: nat)
    requires Wf(s) && Fits(s.disk, a, 32) && a % 512 + 32 <= 512 && Unmoved(s, t, a)
    requires x < ADDRESSABLE && x < Size(s.disk) && x / 512 != a / 512
    ensures Unmoved(s, StoreByte(t, x, b).0, a)
  {
    hide StoreByte, EntryAt, View;
    StoreByteUnmoved(t, x, b, a);
    UnmovedThen(s, t, StoreByte(t, x, b).0, a);
  }

  lemma UnmovedStep(s: IoState, offset: U32, bs: seq<Byte>, n: nat, a: nat)
    requires Wf(s) && s.faults == [] && Fits(s.disk, a, 32) && a % 512 + 32 <= 512
    requires 0 < n <= |bs| && Fits(s.disk, offset, n) && (offset + (n - 1)) / 512 != a / 512
    requires Unmoved(s, WriteBytes(s, offset, bs, n - 1).0, a)
    ensures Unmoved(s, WriteBytes(s, offset, bs, n).0, a)
  {
    hide Unmoved, StoreByte, View, PokeFirst;
    WriteBytesReliable(s, offset, bs, n - 1);
    WriteBytesStep(s, offset, bs, n);
    OneMoreUnmoved(s, WriteBytes(s, offset, bs, n - 1).0, offset + (n - 1), bs[n - 1], a);
  }

  lemma {:induction false} WriteBytesUnmoved(s: IoState, offset: U32, bs: seq<Byte>, n: nat, a: nat)
    requires Wf(s) && s.faults == [] && Fits(s.disk, a, 32) && a % 512 + 32 <= 512
    requires n <= |bs| && Fits(s.disk, offset, n) && Clear(a, offset, n)
    ensures Unmoved(s, WriteBytes(s, offset, bs, n).0, a)
  {
    if n == 0 {
      hide EntryAt, View;
    } else {
      assert Clear(a, offset, n - 1) && (offset + (n - 1)) / 512 != a / 512;
      hide Unmoved, WriteBytes, Clear;
      WriteBytesUnmoved(s, offset, bs, n - 1, a);
      UnmovedStep(s, offset, bs, n, a);
    }
  }

  lemma FlushesUnmoved(s: IoState, a: nat)
    requires Wf(s) && s.faults == [] && Fits(s.disk, a, 32)
    ensures Unmoved(s, FlushOut(FlushIn(s).0).0, a)
  {
    var t := FlushIn(s).0;
    assert View(t) == View(s) && t.images == s.images && Wf(t) && t.faults == [];
    hide FlushIn, EntryAt;
    FlushOutRefines(t);
    assert FlushOut(t).0.faults == [];
    hide FlushOut, View;
  }

  /** All images of one fat32_write_file_nbytes hold the entry from before it: the size is updated
      after the last of them. */
  lemma WriteFileSteady(s: IoState, g: Geometry, f: File, buf: seq<Byte>, stack: Entry)
    requires Placed(s, g, f, |buf|)
    ensures Wf(s) && Fits(s.disk, EntryAddr(g, f.rootDirOffset), 32)
    ensures Steady(s, WriteFile(s, g, f, buf, stack).0, EntryAddr(g, f.rootDirOffset))
  {
    var a, cur := EntryAddr(g, f.rootDirOffset), f.currentByteOffset;
    EntryInOneSector(g, f.rootDirOffset);
    WriteFileSettles(s, g, f, buf, stack);
    assert Wf(s) && s.faults == [] && Fits(s.disk, a, 32) && Fits(s.disk, cur, |buf|) && Clear(a, cur, |buf|);
    var w := WriteBytes(s, cur, buf, |buf|).0;
    var s3 := FlushOut(FlushIn(w).0).0;
    assert Settled(s, cur, buf) == s3;
    hide Settled, WriteFile, UpdateFileSize, EntryAddr, WriteBytes, FlushIn, FlushOut, Unmoved, Steady, Clear, Placed;
    WriteBytesUnmoved(s, cur, buf, |buf|, a);
    UnmovedIsSound(s, w, a);
    FlushesUnmoved(w, a);
    UnmovedIsSound(w, s3, a);
    UnmovedThen(s, w, s3, a);
    UpdateSteady(s3, g, f.rootDirOffset, |buf|, stack);
    UnmovedThen(s, s3, UpdateFileSize(s3, g, f.rootDirOffset, |buf|, stack), a);
  }

  lemma UnmovedIsSound(s: IoState, t: IoState, a: nat)
    requires Wf(s) && Fits(s.disk, a, 32) && Unmoved(s, t, a)
    ensures Wf(t) && t.faults == [] && |t.disk| == |s.disk| && Fits(t.disk, a, 32) && Steady(s, t, a)
  {
    hide EntryAt, View;
  }

  lemma UpdateSteady(s: IoState, g: Geometry, slot: U32, n: nat, stack: Entry)
    requires Wf(s) && s.faults == [] && Fits(s.disk, EntryAddr(g, slot), 32)
    ensures Steady(s, UpdateFileSize(s, g, slot, n, stack), EntryAddr(g, slot))
  {
    UpdateFileSizeExact(s, g, slot, n, stack);
    hide UpdateFileSize, EntryAddr, EntryAt, View, PokeAll, AddSize;
  }

  /** Image `k` is one that write number `j` leaves. */
  ghost predicate ImageOf(s: IoState, g: Geometry, f: File, bufs: seq<seq<Byte>>, j: nat, stack: Entry, k: nat)
    requires 0 < j <= |bufs|
  {
    |WriteAll(s, g, f, bufs, j - 1, stack).0.images| <= k < |WriteAll(s, g, f, bufs, j, stack).0.images|
  }

  /** Image `k` is of one of the first `n` writes, and holds the entry `first` with the bytes of
      the writes before that one counted. */
  ghost predicate CountsEarlier(s: IoState, g: Geometry, f: File, bufs: seq<seq<Byte>>, n: nat, stack: Entry, k: nat,
                                image: Disk, first: Entry)
    requires n <= |bufs|
  {
    var a := EntryAddr(g, f.rootDirOffset);
    && a + 32 <= Size(image)
    && exists j :: 0 < j <= n && ImageOf(s, g, f, bufs, j, stack, k) && EntryAt(image, a) == AddSize(first, |Concat(bufs, j - 1)|)
  }

  lemma NoWrites(s: IoState, g: Geometry, f: File, bufs: seq<seq<Byte>>, stack: Entry)
    ensures WriteAll(s, g, f, bufs, 0, stack) == (s, f)
  {
  }

  lemma LastTurn(s: IoState, g: Geometry, f: File, bufs: seq<seq<Byte>>, n: nat, stack: Entry)
    requires 0 < n <= |bufs|
    ensures var (s1, f1) := WriteAll(s, g, f, bufs, n - 1, stack); WriteAll(s, g, f, bufs, n, stack) == WriteFile(s1, g, f1, bufs[n - 1], stack)
    ensures |Concat(bufs, n)| == |Concat(bufs, n - 1)| + |bufs[n - 1]|
  {
    hide WriteFile;
  }

  /** State `s1` has `n` bytes more counted at `a` than `s`, and every new image in `t` has as many. */
  ghost predicate CountedAndSteady(s: IoState, s1: IoState, t: IoState, a: nat, n: nat) {
    && Wf(s) && Wf(s1) && Fits(s.disk, a, 32) && |s1.disk| == |s.disk|
    && Steady(s1, t, a) && EntryAt(View(s1), a) == AddSize(EntryAt(View(s), a), n)
  }

  lemma CountedMeans(s: IoState, s1: IoState, t: IoState, a: nat, n: nat)
    requires CountedAndSteady(s, s1, t, a, n)
    ensures Wf(s) && Fits(s.disk, a, 32) && a + 32 <= Size(View(s)) && s1.images <= t.images
    ensures forall k :: |s1.images| <= k < |t.images| ==>
      a + 32 <= Size(t.images[k]) && EntryAt(t.images[k], a) == AddSize(EntryAt(View(s), a), n)
  {
    hide EntryAt, View, AddSize;
  }

  lemma CountedFrom(s: IoState, g: Geometry, s1: IoState, f1: File, buf: seq<Byte>, room: nat, stack: Entry, n: nat)
    requires Placed(s1, g, f1, |buf| + room)
    requires var a := EntryAddr(g, f1.rootDirOffset);
             && Wf(s) && Wf(s1) && Fits(s.disk, a, 32) && |s1.disk| == |s.disk|
             && EntryAt(View(s1), a) == AddSize(EntryAt(View(s), a), n)
    ensures CountedAndSteady(s, s1, WriteFile(s1, g, f1, buf, stack).0, EntryAddr(g, f1.rootDirOffset), n)
  {
    LessRoom(s1, g, f1, |buf|, room);
    hide WriteFile, EntryAddr, EntryAt, View, AddSize, Placed, Steady;
    WriteFileSteady(s1, g, f1, buf, stack);
  }

  /** The last of `n` writes */
  lemma LastSteady(s: IoState, g: Geometry, f: File, bufs: seq<seq<Byte>>, n: nat, room: nat, stack: Entry)
    requires 0 < n <= |bufs| && Placed(s, g, f, |Concat(bufs, n)| + room) && forall i :: 0 <= i < n ==> bufs[i] != []
    ensures CountedAndSteady(s, WriteAll(s, g, f, bufs, n - 1, stack).0, WriteAll(s, g, f, bufs, n, stack).0,
                             EntryAddr(g, f.rootDirOffset), |Concat(bufs, n - 1)|)
  {
    hide *;
    LastTurn(s, g, f, bufs, n, stack);
    var last := WriteAll(s, g, f, bufs, n - 1, stack);
    RunSoFar(s, g, f, bufs, n - 1, |bufs[n - 1]| + room, stack);
    CountedFrom(s, g, last.0, last.1, bufs[n - 1], room, stack, |Concat(bufs, n - 1)|);
  }

  lemma LastImages(s: IoState, g: Geometry, f: File, bufs: seq<seq<Byte>>, n: nat, room: nat, stack: Entry, k: nat)
    requires 0 < n <= |bufs| && Placed(s, g, f, |Concat(bufs, n)| + room) && forall i :: 0 <= i < n ==> bufs[i] != []
    requires var s1, t := WriteAll(s, g, f, bufs, n - 1, stack).0, WriteAll(s, g, f, bufs, n, stack).0;
             |s1.images| <= k < |t.images|
    ensures var t, a := WriteAll(s, g, f, bufs, n, stack).0, EntryAddr(g, f.rootDirOffset);
            Wf(s) && Fits(s.disk, a, 32) && CountsEarlier(s, g, f, bufs, n, stack, k, t.images[k], EntryAt(View(s), a))
  {
    hide *;
    IsImageOf(s, g, f, bufs, n, stack, k);
    var s1, t, a := WriteAll(s, g, f, bufs, n - 1, stack).0, WriteAll(s, g, f, bufs, n, stack).0, EntryAddr(g, f.rootDirOffset);
    LastSteady(s, g, f, bufs, n, room, stack);
    CountedMeans(s, s1, t, a, |Concat(bufs, n - 1)|);
    CountsNow(s, g, f, bufs, n, stack, k, t.images[k], EntryAt(View(s), a));
  }

  lemma IsImageOf(s: IoState, g: Geometry, f: File, bufs: seq<seq<Byte>>, n: nat, stack: Entry, k: nat)
    requires 0 < n <= |bufs|
    requires |WriteAll(s, g, f, bufs, n - 1, stack).0.images| <= k < |WriteAll(s, g, f, bufs, n, stack).0.images|
    ensures ImageOf(s, g, f, bufs, n, stack, k)
  {
    hide WriteAll;
  }

  lemma CountsNow(s: IoState, g: Geometry, f: File, bufs: seq<seq<Byte>>, n: nat, stack: Entry, k: nat, image: Disk, first: Entry)
    requires 0 < n <= |bufs| && ImageOf(s, g, f, bufs, n, stack, k) && EntryAddr(g, f.rootDirOffset) + 32 <= Size(image)
    requires EntryAt(image, EntryAddr(g, f.rootDirOffset)) == AddSize(first, |Concat(bufs, n - 1)|)
    ensures CountsEarlier(s, g, f, bufs, n, stack, k, image, first)
  {
    hide ImageOf, EntryAddr, EntryAt, AddSize, Concat;
  }

  lemma MoreWrites(s: IoState, g: Geometry, f: File, bufs: seq<seq<Byte>>, n: nat, stack: Entry, k: nat, image: Disk, first: Entry)
    requires 0 < n <= |bufs| && CountsEarlier(s, g, f, bufs, n - 1, stack, k, image, first)
    ensures CountsEarlier(s, g, f, bufs, n, stack, k, image, first)
  {
    hide ImageOf, EntryAddr, EntryAt, AddSize, Concat;
  }

  lemma EarlierImages(s: IoState, g: Geometry, f: File, bufs: seq<seq<Byte>>, n: nat, room: nat, stack: Entry, k: nat)
    requires 0 < n <= |bufs| && Placed(s, g, f, |Concat(bufs, n)| + room) && forall i :: 0 <= i < n ==> bufs[i] != []
    requires k < |WriteAll(s, g, f, bufs, n - 1, stack).0.images| && Wf(s) && EntryAddr(g, f.rootDirOffset) + 32 <= Size(View(s))
    requires CountsEarlier(s, g, f, bufs, n - 1, stack, k, WriteAll(s, g, f, bufs, n - 1, stack).0.images[k],
                           EntryAt(View(s), EntryAddr(g, f.rootDirOffset)))
    ensures var t, a := WriteAll(s, g, f, bufs, n, stack).0, EntryAddr(g, f.rootDirOffset);
            k < |t.images| && CountsEarlier(s, g, f, bufs, n, stack, k, t.images[k], EntryAt(View(s), a))
  {
    hide *;
    var s1, t, a := WriteAll(s, g, f, bufs, n - 1, stack).0, WriteAll(s, g, f, bufs, n, stack).0, EntryAddr(g, f.rootDirOffset);
    LastSteady(s, g, f, bufs, n, room, stack);
    CountedMeans(s, s1, t, a, |Concat(bufs, n - 1)|);
    assert t.images[k] == s1.images[k];
    MoreWrites(s, g, f, bufs, n, stack, k, t.images[k], EntryAt(View(s), a));
  }

  /** Every image of a run of non-empty writes counts exactly the bytes of the writes before the
      one that left it. */
  lemma {:induction false} ImagesOfRun(s: IoState, g: Geometry, f: File, bufs: seq<seq<Byte>>, n: nat, room: nat, stack: Entry, k: nat)
    requires n <= |bufs| && Placed(s, g, f, |Concat(bufs, n)| + room) && forall i :: 0 <= i < n ==> bufs[i] != []
    requires |s.images| <= k < |WriteAll(s, g, f, bufs, n, stack).0.images|
    ensures var t, a := WriteAll(s, g, f, bufs, n, stack).0, EntryAddr(g, f.rootDirOffset);
            Wf(s) && Fits(s.disk, a, 32) && CountsEarlier(s, g, f, bufs, n, stack, k, t.images[k], EntryAt(View(s), a))
  {
    hide *;
    PlacedMeans(s, g, f, |Concat(bufs, n)| + room);
    if n == 0 {
      NoWrites(s, g, f, bufs, stack);
    } else {
      LastTurn(s, g, f, bufs, n, stack);
      if k >= |WriteAll(s, g, f, bufs, n - 1, stack).0.images| {
        LastImages(s, g, f, bufs, n, room, stack, k);
      } else {
        ImagesOfRun(s, g, f, bufs, n - 1, |bufs[n - 1]| + room, stack, k);
        EarlierImages(s, g, f, bufs, n, room, stack, k);
      }
    }
  }

  /** Image `k` is of some write, and its size is the length of all writes before that one. */
  ghost predicate OneWriteBehind(s: IoState, g: Geometry, f: File, bufs: seq<seq<Byte>>, stack: Entry, k: nat, image: Disk) {
    var a := EntryAddr(g, f.rootDirOffset);
    && a + 32 <= Size(image)
    && exists j :: 0 < j <= |bufs| && ImageOf(s, g, f, bufs, j, stack, k) && SizeOf(EntryAt(image, a)) == |Concat(bufs, j - 1)|
  }

  lemma SizeOfEarlier(s: IoState, g: Geometry, f: File, bufs: seq<seq<Byte>>, stack: Entry, k: nat, image: Disk, first: Entry)
    requires CountsEarlier(s, g, f, bufs, |bufs|, stack, k, image, first) && SizeOf(first) == 0 && |Concat(bufs, |bufs|)| <= ADDRESSABLE
    ensures OneWriteBehind(s, g, f, bufs, stack, k, image)
  {
    var a := EntryAddr(g, f.rootDirOffset);
    hide EntryAddr, AddSize, ImageOf, EntryAt, SizeOf, Concat;
    var j :| 0 < j <= |bufs| && ImageOf(s, g, f, bufs, j, stack, k) && EntryAt(image, a) == AddSize(first, |Concat(bufs, j - 1)|);
    ConcatGrows(bufs, j - 1, |bufs|);
    AddSizeFields(first, |Concat(bufs, j - 1)|);
  }

  /** So a power failure costs at most the size of the last write: whatever image the card is left
      with, its size is the length of all writes before the one that left the image. */
  lemma CrashLosesOneWrite(s: IoState, g: Geometry, files: seq<File>, f: File, bufs: seq<seq<Byte>>, stack: Entry,
                           c: IoState, f1: File, k: nat)
    requires FindFile(files, f.name, f.ext) == |files| && (c, f1) == CreatFile(s, g, files, f)
    requires Placed(s, g, f1, |Concat(bufs, |bufs|)|) && forall i :: 0 <= i < |bufs| ==> bufs[i] != []
    requires |c.images| <= k < |WriteAll(c, g, f1, bufs, |bufs|, stack).0.images|
    ensures OneWriteBehind(c, g, f1, bufs, stack, k, WriteAll(c, g, f1, bufs, |bufs|, stack).0.images[k])
  {
    hide *;
    var n, head := |Concat(bufs, |bufs|)|, NewEntry(f.name, f.ext, f1.currentCluster)[..28];
    CreatStartsLogging(s, g, files, f, n, c, f1);
    LoggingFits(c, g, f1, n, |c.images|, head, f1.startByteOffset, []);
    ImagesOfRun(c, g, f1, bufs, |bufs|, 0, stack, k);
    SizeOfEarlier(c, g, f1, bufs, stack, k, WriteAll(c, g, f1, bufs, |bufs|, stack).0.images[k],
                  EntryAt(View(c), EntryAddr(g, f1.rootDirOffset)));
  }

  lemma {:induction false} ConcatGrows(bufs: seq<seq<Byte>>, m: nat, n: nat)
    requires m <= n <= |bufs|
    ensures |Concat(bufs, m)| <= |Concat(bufs, n)|
  {
    if m < n {
      ConcatGrows(bufs, m, n - 1);
    }
  }
}
