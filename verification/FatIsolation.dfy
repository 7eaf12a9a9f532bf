/** Creating a file and logging to it changes nothing in the directory slots and the listed
    clusters of the cached files. (What a scan lists for a file are not its own clusters; FatReuse
    says when those survive.) */
module FatIsolation {
  import opened Bytes
  import opened Store
  import opened Io
  import opened IoRefinement
  import opened FatLayout
  import opened FatAlloc
  import opened FatWrite
  import opened FatRuns
  import opened FatCrash

  /** The root directory begins where fat32_set_context puts it: at its own cluster. */
  ghost predicate RootPlaced(g: Geometry) {
    ClusterFits(g, g.rootCluster) && g.rootDirSector * 512 == ClusterAddr(g, g.rootCluster)
  }

  lemma SetContextPlacesRoot(startSector: U32, bs: BootSector)
    requires ClusterFits(SetContext(startSector, bs), bs.rootCluster)
    ensures RootPlaced(SetContext(startSector, bs))
  {
    var g := SetContext(startSector, bs);
    assert g.rootDirSector == LbaFromCluster(g.clusterBeginSector, g.sectorsPerCluster, g.rootCluster);
    hide SetContext;
    LbaIsAddress(g, g.rootCluster);
  }

  /** The sector number and the byte address of a cluster that fits agree. */
  lemma LbaIsAddress(g: Geometry, c: U32)
    requires ClusterFits(g, c)
    ensures LbaFromCluster(g.clusterBeginSector, g.sectorsPerCluster, c) * 512 == ClusterAddr(g, c)
  {
    ClusterAddrExact(g, c);
    Sectors(c - 2, g.sectorsPerCluster);
    var x := (c - 2) * g.sectorsPerCluster;
    assert ClusterAddr(g, c) == 512 * (g.clusterBeginSector + x);
    assert 512 * (g.clusterBeginSector + x) < 0x1_0000_0000 && 0 <= x;
    assert LbaFromCluster(g.clusterBeginSector, g.sectorsPerCluster, c) == Wrap32(g.clusterBeginSector + x);
    hide *;
    NoWrap(g.clusterBeginSector + x);
  }

  lemma Sectors(n: nat, m: nat)
    ensures n * (m * 512) == 512 * (n * m) && 0 <= n * m
  {
  }

  lemma NoWrap(x: int)
    requires 0 <= x < 0x1_0000_0000
    ensures Wrap32(x) == x
  {
  }

  /** A slot lies in the root directory's cluster exactly when it is below 16 per sector. */
  lemma SlotInRootIff(g: Geometry, slot: U32)
    requires RootPlaced(g) && ClusterAddr(g, g.rootCluster) + 32 * slot + 32 <= 0x1_0000_0000
    ensures EntryAddr(g, slot) == ClusterAddr(g, g.rootCluster) + 32 * slot
    ensures slot < 16 * g.sectorsPerCluster <==>
            InCluster(g, g.rootCluster, EntryAddr(g, slot)) && InCluster(g, g.rootCluster, EntryAddr(g, slot) + 31)
  {
    hide ClusterFits, ClusterAddr;
  }

  /** The slot found for a new file is inside the root cluster if and only if one is free there;
      with sixteen live entries and one sector per cluster it is in the next cluster. */
  lemma NewSlotInRootIff(files: seq<File>, bound: nat)
    ensures NextSlot(files) < bound <==> exists k :: 0 <= k < bound && !HasSlot(files, k)
    ensures |files| < bound ==> NextSlot(files) < bound
  {
    var r := NextSlot(files);
    SlotsBound(files);
    forall x ensures x in Slots(files) <==> HasSlot(files, x) {
      InSlots(files, x);
    }
    if r < bound {
      assert !HasSlot(files, r);
    }
  }

  lemma FullRootOverflows(g: Geometry)
    requires RootPlaced(g) && g.rootCluster + 1 < 0x1_0000_0000 && ClusterFits(g, g.rootCluster + 1)
    ensures EntryAddr(g, 16 * g.sectorsPerCluster) == ClusterAddr(g, g.rootCluster + 1)
  {
    var c := g.rootCluster;
    ClusterAddrExact(g, c);
    ClusterAddrExact(g, c + 1);
    assert (c + 1 - 2) * ClusterBytes(g) == (c - 2) * ClusterBytes(g) + ClusterBytes(g);
    assert g.rootDirSector * 512 + 32 * (16 * g.sectorsPerCluster) == ClusterAddr(g, c + 1);
  }

  /** Clusters are made of whole sectors. */
  lemma SectorInCluster(g: Geometry, c: U32, a: nat, x: nat)
    requires ClusterFits(g, c) && InCluster(g, c, a) && x / 512 == a / 512
    ensures InCluster(g, c, x)
  {
    ClusterAddrExact(g, c);
    var p := g.clusterBeginSector + (c - 2) * g.sectorsPerCluster;
    assert (c - 2) * ClusterBytes(g) == 512 * ((c - 2) * g.sectorsPerCluster);
    assert ClusterAddr(g, c) == 512 * p;
    hide ClusterAddr, ClusterFits;
    assert p <= a / 512 < p + g.sectorsPerCluster;
  }

  /** The data of a file in its own cluster is clear of an entry in the root cluster. */
  lemma OtherClusterIsClear(g: Geometry, c: U32, a: nat, n: nat)
    requires ClusterFits(g, c) && ClusterFits(g, g.rootCluster) && c != g.rootCluster
    requires InCluster(g, g.rootCluster, a) && n <= ClusterBytes(g)
    ensures Clear(a, ClusterAddr(g, c), n)
  {
    var cur := ClusterAddr(g, c);
    forall x | cur <= x < cur + n ensures x / 512 != a / 512 {
      if x / 512 == a / 512 {
        SectorInCluster(g, g.rootCluster, a, x);
        assert InCluster(g, c, x);
        ClustersDisjoint(g, c, g.rootCluster, x);
      }
    }
  }

  /** A new file `f1` created in state `s`, with room for `n` bytes in the cluster it is given. */
  ghost predicate Created(s: IoState, g: Geometry, files: seq<File>, f: File, n: nat, c: IoState, f1: File) {
    && (c, f1) == CreatFile(s, g, files, f) && FindFile(files, f.name, f.ext) == |files|
    && NextSlot(files) < 0x1_0000_0000 && NextCluster(files) < 0x1_0000_0000
    && RootPlaced(g)
    && ClusterAddr(g, g.rootCluster) + ClusterBytes(g) <= ADDRESSABLE
    && f1.rootDirOffset < 16 * g.sectorsPerCluster && ClusterFits(g, f1.currentCluster)
    && Wf(s) && s.faults == [] && n <= ClusterBytes(g)
    && Fits(s.disk, EntryAddr(g, f1.rootDirOffset), 32) && Fits(s.disk, ClusterAddr(g, f1.currentCluster), n)
  }

  /** The cluster is not the root directory's. */
  ghost predicate NewFile(s: IoState, g: Geometry, files: seq<File>, f: File, n: nat, c: IoState, f1: File) {
    Created(s, g, files, f, n, c, f1) && NextCluster(files) != g.rootCluster
  }

  /** The search returns a cluster, say the root directory's, if and only if no cached list holds
      it and the lists hold every one from 2 up to it. */
  lemma ReturnedIff(files: seq<File>, cluster: int)
    ensures NextCluster(files) == cluster <==>
            2 <= cluster && !InChain(files, cluster) && forall x :: 2 <= x < cluster ==> InChain(files, x)
  {
    forall x ensures x in Clusters(files) <==> InChain(files, x) {
      InClusters(files, x);
    }
    hide InChain, Clusters;
  }

  /** With nothing cached it returns cluster 2, on most cards the root directory's. */
  lemma NothingCached()
    ensures NextCluster([]) == 2 && NextSlot([]) == 0
  {
    ReturnedIff([], 2);
  }

  /** The data of a new file stays clear of the sector of its entry if and only if the search does
      not return the root directory's cluster; if it does, the log begins at directory slot 0. */
  lemma NewDataClearIff(s: IoState, g: Geometry, files: seq<File>, f: File, c: IoState, f1: File)
    requires Created(s, g, files, f, ClusterBytes(g), c, f1)
    ensures Clear(EntryAddr(g, f1.rootDirOffset), f1.startByteOffset, ClusterBytes(g)) <==> NextCluster(files) != g.rootCluster
    ensures NextCluster(files) == g.rootCluster ==> f1.startByteOffset == EntryAddr(g, 0)
  {
    var a := EntryAddr(g, f1.rootDirOffset);
    CreatedNumbers(s, g, files, f, ClusterBytes(g), c, f1);
    assert ClusterFits(g, f1.currentCluster) && RootPlaced(g);
    hide Created, NextSlot, NextCluster, FindFile, InChain, HasSlot, NewEntry, CreatFile, EntryAddr, ClusterAddr, ClusterFits, View;
    SlotInRootIff(g, f1.rootDirOffset);
    SlotInRootIff(g, 0);
    if f1.currentCluster != g.rootCluster {
      OtherClusterIsClear(g, f1.currentCluster, a, ClusterBytes(g));
    } else {
      assert f1.startByteOffset <= a < f1.startByteOffset + ClusterBytes(g);
    }
  }

  /** The assumptions can be met: on a blank volume of one-sector clusters, with nothing cached
      but an entry for the root directory, every other name gets slot 1 and cluster 3. */
  lemma SmallVolume(root: File, f: File, n: nat, s: IoState, g: Geometry)
    requires root.rootDirOffset == 0 && root.fatList == [2] && !(StrNEq(root.name, f.name) && StrNEq(root.ext, f.ext))
    requires n <= 512 && s == BlankState(13) && g == Geometry(1, 9, 9, 2, 1)
    ensures var (c, f1) := CreatFile(s, g, [root], f);
            NewFile(s, g, [root], f, n, c, f1) && f1.rootDirOffset == 1 && f1.currentCluster == 3
  {
    var files := [root];
    assert files[0].fatList[0] == 2 && files[0].rootDirOffset == 0;
    FreshNumbers(files);
    InClusters(files, 2);
    ClustersBound(files);
    SlotsBound(files);
    assert ChainEntries(files[1..]) == 0;
    assert NextCluster(files) == 3 && NextSlot(files) == 1;
    hide NextCluster, NextSlot, WriteBytes, NewEntry, StrNEq, ChainEntries, InChain, HasSlot;
    var f1 := CreatFile(s, g, files, f).1;
    assert f1.rootDirOffset == 1 && f1.currentCluster == 3;
  }

  lemma FreshNumbers(files: seq<File>)
    ensures !InChain(files, NextCluster(files)) && !HasSlot(files, NextSlot(files))
    ensures NextCluster(files) >= 2 && NextSlot(files) >= 0
  {
    InClusters(files, NextCluster(files));
    InSlots(files, NextSlot(files));
  }

  lemma NewFileNumbers(s: IoState, g: Geometry, files: seq<File>, f: File, n: nat, c: IoState, f1: File)
    requires NewFile(s, g, files, f, n, c, f1)
    ensures f1.rootDirOffset == NextSlot(files) && f1.currentCluster == NextCluster(files)
    ensures !InChain(files, f1.currentCluster) && !HasSlot(files, f1.rootDirOffset) && f1.currentCluster != g.rootCluster
    ensures f1.currentByteOffset == f1.startByteOffset == ClusterAddr(g, f1.currentCluster)
    ensures Wf(c) && c.faults == [] && |c.disk| == |s.disk|
    ensures View(c) == PokeAll(View(s), EntryAddr(g, f1.rootDirOffset), NewEntry(f.name, f.ext, f1.currentCluster))
  {
    CreatedNumbers(s, g, files, f, n, c, f1);
    hide Created, NextSlot, NextCluster, FindFile, InChain, HasSlot, EntryAddr, NewEntry, ClusterAddr, CreatFile, View, PokeAll;
  }

  lemma CreatedNumbers(s: IoState, g: Geometry, files: seq<File>, f: File, n: nat, c: IoState, f1: File)
    requires Created(s, g, files, f, n, c, f1)
    ensures f1.rootDirOffset == NextSlot(files) && f1.currentCluster == NextCluster(files)
    ensures !InChain(files, f1.currentCluster) && !HasSlot(files, f1.rootDirOffset)
    ensures f1.currentByteOffset == f1.startByteOffset == ClusterAddr(g, f1.currentCluster)
    ensures Wf(c) && c.faults == [] && |c.disk| == |s.disk|
    ensures View(c) == PokeAll(View(s), EntryAddr(g, f1.rootDirOffset), NewEntry(f.name, f.ext, f1.currentCluster))
  {
    FreshNumbers(files);
    assert f1.rootDirOffset == Wrap32(NextSlot(files)) by {
      hide NextSlot, NextCluster, InChain, HasSlot, EntryAddr, NewEntry, ClusterAddr, RootPlaced, ClusterFits, WriteBytes;
    }
    hide NextSlot, NextCluster, FindFile, InChain, HasSlot, EntryAddr, NewEntry, ClusterAddr, RootPlaced, ClusterFits, CreatFile,
      View, PokeAll;
    CreatExact(s, g, files, f);
  }

  /** The searches give the new file a slot in the root directory and a cluster of its own, so
      its data never shares a sector with its entry. */
  lemma NewFilePlaced(s: IoState, g: Geometry, files: seq<File>, f: File, n: nat, c: IoState, f1: File)
    requires NewFile(s, g, files, f, n, c, f1)
    ensures Placed(s, g, f1, n) && Placed(c, g, f1, n)
    ensures InCluster(g, g.rootCluster, EntryAddr(g, f1.rootDirOffset))
  {
    NewFileNumbers(s, g, files, f, n, c, f1);
    hide NextSlot, NextCluster, FindFile, InChain, HasSlot, NewEntry, CreatFile, EntryAddr, ClusterAddr, ClusterFits, View;
    assert 32 * f1.rootDirOffset + 32 <= ClusterBytes(g);
    SlotInRootIff(g, f1.rootDirOffset);
    OtherClusterIsClear(g, f1.currentCluster, EntryAddr(g, f1.rootDirOffset), n);
  }

  /** Everything outside the new slot and the new cluster is as it was. */
  lemma OnlyOwnBytesChange(s: IoState, g: Geometry, files: seq<File>, f: File, bufs: seq<seq<Byte>>, stack: Entry,
                           c: IoState, f1: File, x: nat)
    requires NewFile(s, g, files, f, |Concat(bufs, |bufs|)|, c, f1) && forall i :: 0 <= i < |bufs| ==> bufs[i] != []
    requires x < Size(s.disk) && !InCluster(g, f1.currentCluster, x)
    requires !(EntryAddr(g, f1.rootDirOffset) <= x < EntryAddr(g, f1.rootDirOffset) + 32)
    ensures var t := WriteAll(c, g, f1, bufs, |bufs|, stack).0;
            Wf(t) && |t.disk| == |s.disk| && Peek(View(t), x) == Peek(View(s), x)
  {
    var a, n := EntryAddr(g, f1.rootDirOffset), |Concat(bufs, |bufs|)|;
    NewFileNumbers(s, g, files, f, n, c, f1);
    NewFilePlaced(s, g, files, f, n, c, f1);
    assert n <= ClusterBytes(g);
    Conservation(c, g, f1, bufs, |bufs|, 0, stack);
    hide NewFile, CreatFile, WriteAll, NewEntry, Concat, EntryAddr, View, ClusterAddr, PokeAll, EntryAt, ClusterFits, FindFile;
    PeekPokeAll(View(s), a, NewEntry(f.name, f.ext, f1.currentCluster), x);
    var t := WriteAll(c, g, f1, bufs, |bufs|, stack).0;
    assert Peek(View(t), x) == LoggedByte(View(c), a, f1.currentByteOffset, Concat(bufs, |bufs|), x);
  }

  lemma SlotsApart(g: Geometry, p: U32, q: U32)
    requires RootPlaced(g) && ClusterAddr(g, g.rootCluster) + ClusterBytes(g) <= ADDRESSABLE
    requires p < 16 * g.sectorsPerCluster && q < 16 * g.sectorsPerCluster && p != q
    ensures EntryAddr(g, p) + 32 <= EntryAddr(g, q) || EntryAddr(g, q) + 32 <= EntryAddr(g, p)
  {
    SlotInRootIff(g, p);
    SlotInRootIff(g, q);
    hide EntryAddr;
  }

  /** No byte `x` of any cached file's directory slot changes. */
  lemma CachedEntryKept(s: IoState, g: Geometry, files: seq<File>, f: File, bufs: seq<seq<Byte>>, stack: Entry,
                        c: IoState, f1: File, i: nat, x: nat)
    requires NewFile(s, g, files, f, |Concat(bufs, |bufs|)|, c, f1) && forall j :: 0 <= j < |bufs| ==> bufs[j] != []
    requires i < |files| && files[i].rootDirOffset < 16 * g.sectorsPerCluster
    requires EntryAddr(g, files[i].rootDirOffset) <= x < EntryAddr(g, files[i].rootDirOffset) + 32 && x < Size(s.disk)
    ensures var t := WriteAll(c, g, f1, bufs, |bufs|, stack).0;
            Wf(t) && |t.disk| == |s.disk| && Peek(View(t), x) == Peek(View(s), x)
  {
    var n, slot := |Concat(bufs, |bufs|)|, files[i].rootDirOffset;
    NewFileNumbers(s, g, files, f, n, c, f1);
    assert f1.rootDirOffset != slot by {
      assert HasSlot(files, slot);
    }
    SlotsApart(g, slot, f1.rootDirOffset);
    SlotInRootIff(g, slot);
    assert ClusterFits(g, f1.currentCluster) && ClusterFits(g, g.rootCluster);
    hide NewFile, WriteAll, EntryAddr, ClusterAddr, ClusterFits, View, Peek, Concat, HasSlot, InChain, CreatFile;
    if InCluster(g, f1.currentCluster, x) {
      ClustersDisjoint(g, f1.currentCluster, g.rootCluster, x);
    }
    OnlyOwnBytesChange(s, g, files, f, bufs, stack, c, f1, x);
  }

  /** No byte of a cluster in any cached list changes, but for the new slot in the root cluster. */
  lemma CachedClusterKept(s: IoState, g: Geometry, files: seq<File>, f: File, bufs: seq<seq<Byte>>, stack: Entry,
                          c: IoState, f1: File, k: U32, x: nat)
    requires NewFile(s, g, files, f, |Concat(bufs, |bufs|)|, c, f1) && forall j :: 0 <= j < |bufs| ==> bufs[j] != []
    requires InChain(files, k) && ClusterFits(g, k) && InCluster(g, k, x) && x < Size(s.disk)
    requires !(EntryAddr(g, f1.rootDirOffset) <= x < EntryAddr(g, f1.rootDirOffset) + 32)
    ensures var t := WriteAll(c, g, f1, bufs, |bufs|, stack).0;
            Wf(t) && |t.disk| == |s.disk| && Peek(View(t), x) == Peek(View(s), x)
    ensures k != g.rootCluster ==> !InCluster(g, k, EntryAddr(g, f1.rootDirOffset))
  {
    var n, a := |Concat(bufs, |bufs|)|, EntryAddr(g, f1.rootDirOffset);
    NewFileNumbers(s, g, files, f, n, c, f1);
    NewFilePlaced(s, g, files, f, n, c, f1);
    assert ClusterFits(g, f1.currentCluster) && ClusterFits(g, g.rootCluster);
    hide NewFile, WriteAll, EntryAddr, ClusterAddr, ClusterFits, View, Peek, Concat, InChain;
    if InCluster(g, f1.currentCluster, x) {
      ClustersDisjoint(g, f1.currentCluster, k, x);
    }
    OnlyOwnBytesChange(s, g, files, f, bufs, stack, c, f1, x);
    if InCluster(g, k, a) {
      ClustersDisjoint(g, k, g.rootCluster, a);
    }
  }
}
