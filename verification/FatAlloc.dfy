/** src/fat.c: the cached files, and the search for a free cluster and a free directory slot. */
module FatAlloc {
  import opened Bytes
  import opened FatLayout

  /** struct fat32_file as a value: what the context keeps in its list of cached files. */
  datatype File = File(
    name: Name, ext: Ext,
    size: U32,
    startByteOffset: U32, currentByteOffset: U32,
    rootDirOffset: U32,
    currentCluster: U32,
    fatList: seq<U32>)

  // ---- what the searches look for ----

  /** The least number from `from` on that is not in `used`, and how far the search may go. */
  function LowestFree(used: set<int>, from: int): (r: int)
    ensures from <= r <= from + |used|
    ensures r !in used
    ensures forall x :: from <= x < r ==> x in used
    decreases |used|
  {
    if from in used then
      var r := LowestFree(used - {from}, from + 1);
      assert forall x :: from + 1 <= x < r ==> x in used by {
        forall x | from + 1 <= x < r ensures x in used {
          assert x in used - {from};
        }
      }
      r
    else from
  }

  /** Some cached chain holds cluster `x`. */
  predicate InChain(files: seq<File>, x: int) {
    exists i, j :: 0 <= i < |files| && 0 <= j < |files[i].fatList| && files[i].fatList[j] == x
  }

  /** Some cached file has directory slot `x`. */
  predicate HasSlot(files: seq<File>, x: int) {
    exists i :: 0 <= i < |files| && files[i].rootDirOffset == x
  }

  function Clusters(files: seq<File>): set<int> {
    set i, j | 0 <= i < |files| && 0 <= j < |files[i].fatList| :: files[i].fatList[j] as int
  }

  function Slots(files: seq<File>): set<int> {
    set i | 0 <= i < |files| :: files[i].rootDirOffset as int
  }

  function ChainEntries(files: seq<File>): nat {
    if files == [] then 0 else |files[0].fatList| + ChainEntries(files[1..])
  }

  function Elements(s: seq<U32>): set<int> {
    set j | 0 <= j < |s| :: s[j] as int
  }

  lemma {:induction false} ElementsBound(s: seq<U32>)
    ensures |Elements(s)| <= |s|
  {
    if s != [] {
      ElementsBound(s[1..]);
      assert Elements(s) == {s[0] as int} + Elements(s[1..]);
    }
  }

  /** Unordered or duplicated lists only make the search shorter. */
  lemma {:induction false} ClustersBound(files: seq<File>)
    ensures |Clusters(files)| <= ChainEntries(files)
  {
    if files != [] {
      ClustersBound(files[1..]);
      ElementsBound(files[0].fatList);
      var a, b := Elements(files[0].fatList), Clusters(files[1..]);
      forall x | x in Clusters(files) ensures x in a + b {
        var i, j :| 0 <= i < |files| && 0 <= j < |files[i].fatList| && x == files[i].fatList[j];
        if i > 0 {
          assert files[1..][i - 1].fatList[j] == x;
        }
      }
      assert Clusters(files) <= a + b;
      SubsetCard(Clusters(files), a + b);
    }
  }

  lemma {:induction false} SlotsBound(files: seq<File>)
    ensures |Slots(files)| <= |files|
  {
    if files != [] {
      SlotsBound(files[1..]);
      var b := Slots(files[1..]);
      forall x | x in Slots(files) ensures x in {files[0].rootDirOffset as int} + b {
        var i :| 0 <= i < |files| && x == files[i].rootDirOffset;
        if i > 0 {
          assert files[1..][i - 1].rootDirOffset == x;
        }
      }
      SubsetCard(Slots(files), {files[0].rootDirOffset as int} + b);
    }
  }

  lemma {:induction false} SubsetCard<T>(a: set<T>, b: set<T>)
    requires a <= b
    ensures |a| <= |b|
  {
    if a != {} {
      var x :| x in a;
      SubsetCard(a - {x}, b - {x});
    }
  }

  lemma InClusters(files: seq<File>, x: int)
    ensures x in Clusters(files) <==> InChain(files, x)
  {
    if InChain(files, x) {
      var i, j :| 0 <= i < |files| && 0 <= j < |files[i].fatList| && files[i].fatList[j] == x;
      assert files[i].fatList[j] as int in Clusters(files);
    }
  }

  lemma InSlots(files: seq<File>, x: int)
    ensures x in Slots(files) <==> HasSlot(files, x)
  {
    if HasSlot(files, x) {
      var i :| 0 <= i < |files| && files[i].rootDirOffset == x;
      assert files[i].rootDirOffset as int in Slots(files);
    }
  }

  function NextCluster(files: seq<File>): int { LowestFree(Clusters(files), 2) }

  function NextSlot(files: seq<File>): int { LowestFree(Slots(files), 0) }

  // ---- the searches themselves ----

  /** fat32_address_in_dir */
  method AddressInDir(files: seq<File>, addr: int) returns (found: bool)
    ensures found <==> InChain(files, addr)
  {
    var n := 0;
    while n < |files|
      invariant n <= |files|
      invariant forall i, j :: 0 <= i < n && 0 <= j < |files[i].fatList| ==> files[i].fatList[j] != addr
    {
      var t := 0;
      while t < |files[n].fatList|
        invariant t <= |files[n].fatList|
        invariant forall j :: 0 <= j < t ==> files[n].fatList[j] != addr
      {
        if files[n].fatList[t] == addr {
          return true;
        }
        t := t + 1;
      }
      n := n + 1;
    }
    found := false;
  }

  /** fat32_root_entry_found */
  method RootEntryFound(files: seq<File>, loc: int) returns (found: bool)
    ensures found <==> HasSlot(files, loc)
  {
    for n := 0 to |files|
      invariant forall i :: 0 <= i < n ==> files[i].rootDirOffset != loc
    {
      if files[n].rootDirOffset == loc {
        return true;
      }
    }
    found := false;
  }

  /** fat32_get_next_cluster: the least cluster number >= 2 in no cached chain, found within
      as many steps as the chains have entries. */
  method GetNextCluster(files: seq<File>) returns (cluster: int)
    ensures cluster == NextCluster(files)
    ensures 2 <= cluster <= 2 + ChainEntries(files)
    ensures !InChain(files, cluster)
    ensures forall x :: 2 <= x < cluster ==> InChain(files, x)
  {
    ClustersBound(files);
    forall x ensures x in Clusters(files) <==> InChain(files, x) {
      InClusters(files, x);
    }
    cluster := 2;
    var taken := AddressInDir(files, cluster);
    while taken
      invariant 2 <= cluster <= NextCluster(files)
      invariant taken <==> InChain(files, cluster)
      decreases NextCluster(files) - cluster
    {
      cluster := cluster + 1;
      taken := AddressInDir(files, cluster);
    }
  }

  /** fat32_get_next_root_dir_loc: the least slot that no cached file has, at most their number. */
  method GetNextRootDirLoc(files: seq<File>) returns (slot: int)
    ensures slot == NextSlot(files)
    ensures 0 <= slot <= |files|
    ensures !HasSlot(files, slot)
    ensures forall x :: 0 <= x < slot ==> HasSlot(files, x)
  {
    SlotsBound(files);
    forall x ensures x in Slots(files) <==> HasSlot(files, x) {
      InSlots(files, x);
    }
    slot := 0;
    var taken := RootEntryFound(files, slot);
    while taken
      invariant 0 <= slot <= NextSlot(files)
      invariant taken <==> HasSlot(files, slot)
      decreases NextSlot(files) - slot
    {
      slot := slot + 1;
      taken := RootEntryFound(files, slot);
    }
  }

  /** Position of the first cached file with this name, or the length of the list. */
  function FindFile(files: seq<File>, name: Name, ext: Ext): (i: nat)
    ensures i <= |files|
    ensures i < |files| ==> StrNEq(files[i].name, name) && StrNEq(files[i].ext, ext)
    ensures forall j :: 0 <= j < i ==> !(StrNEq(files[j].name, name) && StrNEq(files[j].ext, ext))
  {
    if files == [] then 0
    else if StrNEq(files[0].name, name) && StrNEq(files[0].ext, ext) then 0
    else
      var k := FindFile(files[1..], name, ext);
      assert forall j :: 1 <= j < k + 1 ==> files[j] == files[1..][j - 1];
      1 + k
  }

  /** fat32_file_exists; the length of the list stands for NULL */
  method FileExists(files: seq<File>, name: Name, ext: Ext) returns (i: nat)
    ensures i == FindFile(files, name, ext)
  {
    i := 0;
    while i < |files|
      invariant i <= FindFile(files, name, ext)
    {
      if StrNEq(files[i].name, name) && StrNEq(files[i].ext, ext) {
        return;
      }
      i := i + 1;
    }
  }
}
