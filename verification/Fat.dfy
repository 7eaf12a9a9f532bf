/** src/fat.c: the file system context and the operations that update it, the open file and,
    through the io context, the card. */
module Fat {
  import opened Bytes
  import opened Io
  import opened IoRefinement
  import opened FatLayout
  import opened FatAlloc
  import opened FatWrite
  import opened FatChain
  import opened FatDir
  import opened FatWalk

  /** struct fat32_file of a caller */
  class Fat32File {
    var fileName: Name
    var fileExt: Ext
    var fileSize: U32
    var startByteOffset: U32
    var currentByteOffset: U32
    var rootDirOffset: U32
    var currentCluster: U32
    var fatList: seq<U32>

    ghost function Value(): File
      reads this
    {
      File(fileName, fileExt, fileSize, startByteOffset, currentByteOffset, rootDirOffset, currentCluster, fatList)
    }

    constructor (name: Name, ext: Ext)
      ensures fileName == name && fileExt == ext
    {
      fileName, fileExt := name, ext;
      fileSize, startByteOffset, currentByteOffset, rootDirOffset, currentCluster := 0, 0, 0, 0, 0;
      fatList := [];
    }
  }

  /** The two writes of fat32_update_fat, their results ignored. */
  function UpdatedFat(s: IoState, g: Geometry, fatList: seq<U32>, cluster: U32): IoState {
    var s1 := if fatList == [] then s
              else WriteBytes(s, FatAddr(g, fatList[|fatList| - 1]), Le32(cluster), 4).0;
    WriteBytes(s1, FatAddr(g, cluster), Le32(END_OF_CHAIN), 4).0
  }

  /** On a card that does not fail the view's table is extended as meant. */
  lemma UpdateFatRefines(s: IoState, g: Geometry, fatList: seq<U32>, cluster: U32)
    requires Wf(s) && s.faults == [] && FatFits(s.disk, g, cluster)
    requires fatList != [] ==> FatFits(s.disk, g, fatList[|fatList| - 1])
    ensures var t := UpdatedFat(s, g, fatList, cluster);
            Wf(t) && t.faults == [] && View(t) == Extend(View(s), g, fatList, cluster)
  {
    hide StoreByte, Le32;
    if fatList != [] {
      WriteBytesReliable(s, FatAddr(g, fatList[|fatList| - 1]), Le32(cluster), 4);
    }
    var s1 := if fatList == [] then s
              else WriteBytes(s, FatAddr(g, fatList[|fatList| - 1]), Le32(cluster), 4).0;
    WriteBytesReliable(s1, FatAddr(g, cluster), Le32(END_OF_CHAIN), 4);
  }

  /** Once both buffers are flushed, fat32_get_fat walks the old chain and then the new cluster,
      and every other chain as before. */
  lemma ExtendedChainIsWalked(s: IoState, g: Geometry, first: U32, fatList: seq<U32>, cluster: U32)
    requires Wf(s) && s.faults == [] && FatFits(s.disk, g, cluster) && FatFits(View(s), g, cluster) && cluster !in fatList
    requires if fatList == [] then first == cluster else IsChain(View(s), g, first, fatList)
    ensures var t := FlushIn(FlushOut(UpdatedFat(s, g, fatList, cluster)).0).0;
            && Wf(t) && Coherent(t) && t.faults == [] && IsChain(t.disk, g, first, fatList + [cluster])
            && forall other, kept :: IsChain(View(s), g, other, kept) && cluster !in kept && (forall c | c in fatList :: c !in kept) ==>
                 IsChain(t.disk, g, other, kept)
  {
    ChainExtended(View(s), g, first, fatList, cluster);
    UpdateFatRefines(s, g, fatList, cluster);
    var u := UpdatedFat(s, g, fatList, cluster);
    FlushOutRefines(u);
    FlushedIsCoherent(FlushOut(u).0);
    hide FatEntry, Extend, IsChain, UpdatedFat, FlushIn, FlushOut, FatFits, Wf, View, Coherent;
    forall other, kept | IsChain(View(s), g, other, kept) && cluster !in kept && (forall c | c in fatList :: c !in kept)
      ensures IsChain(Extend(View(s), g, fatList, cluster), g, other, kept)
    {
      OtherChainKept(View(s), g, fatList, cluster, other, kept);
    }
  }

  lemma FlushedIsCoherent(s: IoState)
    requires Wf(s) && s.faults == []
    ensures var t := FlushIn(s).0; Wf(t) && Coherent(t) && t.faults == [] && t.disk == s.disk
  {
  }

  lemma Regroup(list: seq<U32>, curr: U32, rest: seq<U32>)
    requires rest != [] && rest == [curr] + rest[1..]
    ensures list + [curr] + rest[1..] == list + rest
  {
    assert list + ([curr] + rest[1..]) == list + [curr] + rest[1..];
  }

  /** struct fat32_ctx */
  class Fat32Ctx {
    var geometry: Geometry
    /** the list root_dir_entries */
    var rootDirEntries: seq<File>
    const io: IoCtx

    ghost predicate Valid()
      reads this
    {
      io.Valid()
    }

    constructor (io: IoCtx, startSector: U32, bs: BootSector)
      requires io.Valid()
      ensures Valid() && this.io == io && rootDirEntries == []
      ensures geometry == SetContext(startSector, bs)
    {
      this.io := io;
      geometry := SetContext(startSector, bs);
      rootDirEntries := [];
    }

    /** fat32_update_file_size; the bytes of the entry on the stack are returned as a witness. */
    method UpdateFileSize(file: Fat32File, size: nat) returns (ghost stack: Entry)
      requires Valid()
      modifies io.Repr
      ensures io.State() == FatWrite.UpdateFileSize(old(io.State()), geometry, file.rootDirOffset, size, stack)
    {
      hide ReadBytes, WriteBytes, EntryAddr, SizeOf, WithSize;
      var e := new Byte[32];
      stack := e[..];
      var addr := EntryAddr(geometry, file.rootDirOffset);
      var r := io.ReadNBytes(e, addr);
      var newSize := Wrap32(SizeOf(e[..]) + size);
      r := io.WriteNBytes(WithSize(e[..], newSize), addr);
    }

    /** fat32_write_file_nbytes */
    method WriteFileNBytes(file: Fat32File, buf: seq<Byte>) returns (r: int, ghost stack: Entry)
      requires Valid()
      modifies io.Repr, file
      ensures r == 0
      ensures (io.State(), file.Value()) == WriteFile(old(io.State()), geometry, old(file.Value()), buf, stack)
    {
      hide FatWrite.UpdateFileSize, WriteBytes, FlushIn, FlushOut;
      var w := io.WriteNBytes(buf, file.currentByteOffset);
      w := io.FlushReadBuffer();
      w := io.FlushWriteBuffer();
      stack := UpdateFileSize(file, |buf|);
      file.currentByteOffset := Wrap32(file.currentByteOffset + |buf|);
      r := 0;
    }

    /** fat32_creat_file */
    method CreatFile(file: Fat32File) returns (r: int)
      requires Valid()
      modifies io.Repr, file
      ensures r == 0
      ensures (io.State(), file.Value()) == FatWrite.CreatFile(old(io.State()), geometry, rootDirEntries, old(file.Value()))
    {
      var i := FileExists(rootDirEntries, file.fileName, file.fileExt);
      if i < |rootDirEntries| {
        var f := rootDirEntries[i];
        file.rootDirOffset := f.rootDirOffset;
        file.fileSize := f.size;
        file.fatList := f.fatList;
        file.currentCluster := f.currentCluster;
      } else {
        var slot := GetNextRootDirLoc(rootDirEntries);
        file.rootDirOffset := Wrap32(slot);
        var cluster := GetNextCluster(rootDirEntries);
        var first := Wrap32(cluster);
        file.fileSize := 0;
        var w := io.WriteNBytes(NewEntry(file.fileName, file.fileExt, first), EntryAddr(geometry, file.rootDirOffset));
        file.fatList := [];
        file.currentCluster := first;
      }
      file.startByteOffset := ClusterAddr(geometry, file.currentCluster);
      file.currentByteOffset := file.startByteOffset;
      r := 0;
    }

    /** fat32_update_fat; the source stores the list node's data pointer where it means the
        cluster number behind it, and the model uses the number. */
    method UpdateFat(file: Fat32File, cluster: U32) returns (r: int)
      requires Valid()
      modifies io.Repr, file`fatList
      ensures r == 0 && file.fatList == old(file.fatList) + [cluster]
      ensures io.State() == UpdatedFat(old(io.State()), geometry, old(file.fatList), cluster)
    {
      if file.fatList != [] {
        var prev := 0;
        var n := 0;
        while n < |file.fatList|
          invariant n <= |file.fatList|
          invariant n > 0 ==> prev == file.fatList[n - 1]
        {
          prev := file.fatList[n];
          n := n + 1;
        }
        var w := io.WriteNBytes(Le32(cluster), FatAddr(geometry, prev));
      }
      file.fatList := file.fatList + [cluster];
      var w := io.WriteNBytes(Le32(END_OF_CHAIN), FatAddr(geometry, cluster));
      r := 0;
    }

    /** fat32_get_fat: the walk that the table and the state of the cache determine, if it ends */
    method GetFat(firstCluster: U32) returns (r: int, list: seq<U32>, ghost visited: seq<U32>)
      requires Valid() && WalkEnds(io.State(), geometry, firstCluster)
      modifies io.Repr
      ensures Walk(old(io.State()), geometry, firstCluster, visited, io.State(), r == 0)
      ensures (r == 0 && list == visited) || (r == -1 && list == [])
    {
      ghost var whole, end, ok :| Walk(io.State(), geometry, firstCluster, whole, end, ok);
      ghost var rest := whole;
      assert [] + whole == whole;
      visited := whole;
      var curr, more := firstCluster, true;
      list := [];
      r := 0;
      var buf := new Byte[4];
      hide ReadTable, ReadBytes, IsLast, WalkEnds, Walk, FromLe32, FatAddr;
      while more
        invariant r == 0 && list + rest == whole
        invariant if more then Walk(io.State(), geometry, curr, rest, end, ok) else rest == [] && io.State() == end && ok
        decreases more, |rest|
      {
        WalkTurn(io.State(), geometry, curr, rest, end, ok);
        AnyTableBuffer(io.State(), geometry, curr, buf[..]);
        r := io.ReadNBytes(buf, FatAddr(geometry, curr));
        if r < 0 {
          return -1, [], whole;
        }
        var next := FromLe32(buf[..]);
        Regroup(list, curr, rest);
        list, rest := list + [curr], rest[1..];
        curr, more := next, !IsLast(next);
      }
      assert list + [] == list;
    }

    /** fat32_open_file on a file struct that held `was`; a failed walk leaves it as it was. */
    method OpenFile(e: Entry, was: File) returns (r: int, file: File, ghost visited: seq<U32>)
      requires Valid() && WalkEnds(io.State(), geometry, WalkStart(e))
      modifies io.Repr
      ensures Walk(old(io.State()), geometry, WalkStart(e), visited, io.State(), r == 0) && (r == 0 || r == -1)
      ensures file == if r == 0 then File(StrNCpy(NameOf(e)), StrNCpy(ExtOf(e)), SizeOf(e), 0, 0, was.rootDirOffset,
                                          WalkStart(e), visited)
                      else was
    {
      hide Walk, WalkEnds, StrNCpy, WalkStart, SizeOf;
      file := was;
      var list;
      r, list, visited := GetFat(WalkStart(e));
      if r < 0 {
        return -1, was, visited;
      }
      file := file.(fatList := list, size := SizeOf(e), startByteOffset := 0, currentByteOffset := 0,
                    name := StrNCpy(NameOf(e)), ext := StrNCpy(ExtOf(e)), currentCluster := WalkStart(e));
      r := 0;
    }

    /** The loop body of fat32_cache_root_dir for slot `j`; `more` is false where it breaks. */
    method CacheSlot(j: nat, was: File, ghost end: IoState, ghost after: seq<File>) returns (more: bool, file: File)
      requires Valid() && j < SCANNED && Scan(io.State(), geometry, rootDirEntries, was, j, end, after)
      modifies this`rootDirEntries, io.Repr
      ensures if more then Scan(io.State(), geometry, rootDirEntries, file, j + 1, end, after)
              else io.State() == end && rootDirEntries == after
    {
      hide ReadBytes, ReadSlot, Walk, EntryAddr;
      file := was;
      var e := new Byte[32];
      AnySlotBuffer(io.State(), geometry, j, e[..]);
      var r := io.ReadNBytes(e, EntryAddr(geometry, j));
      if r < 0 || ParseEntry(e[..]) < 0 {
        return false, file;
      }
      if e[0] != NEVER_USED && e[0] != DELETED && e[11] % 0x10 != 0x0F {
        ghost var s1, files, entry := io.State(), rootDirEntries, e[..];
        ghost var list, u, listed :| Walk(s1, geometry, WalkStart(entry), list, u, listed)
          && Scan(u, geometry, files + [Cached(entry, list, listed, was, j)], Cached(entry, list, listed, was, j), j + 1, end, after);
        ghost var visited;
        r, file, visited := OpenFile(e[..], file);
        WalkIsUnique(s1, geometry, WalkStart(entry), list, u, listed, visited, io.State(), r == 0);
        file := file.(rootDirOffset := j);
        rootDirEntries := rootDirEntries + [file];
      }
      more := true;
    }

    /** fat32_cache_root_dir: the scan that the card and the state of the cache determine, if it
        ends. `stack` is what the file struct on the stack holds. */
    method CacheRootDir(stack: File) returns (r: int)
      requires Valid() && ScanEnds(io.State(), geometry, rootDirEntries, stack)
      modifies this`rootDirEntries, io.Repr
      ensures r == 0 && Scan(old(io.State()), geometry, old(rootDirEntries), stack, 0, io.State(), rootDirEntries)
    {
      ghost var end, after :| Scan(io.State(), geometry, rootDirEntries, stack, 0, end, after);
      var file, more, j := stack, true, 0;
      while more && j < SCANNED
        invariant j <= SCANNED
        invariant if more then Scan(io.State(), geometry, rootDirEntries, file, j, end, after)
                  else io.State() == end && rootDirEntries == after
        decreases more, SCANNED - j
      {
        more, file := CacheSlot(j, file, end, after);
        if more {
          j := j + 1;
        }
      }
      r := 0;
    }
  }
}
