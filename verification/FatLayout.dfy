/** src/fat.c, src/include/fat.h: where things are on the volume and what a directory entry holds. */
module FatLayout {
  import opened Bytes


  /** The fields of struct fat32_ctx that fat32_set_context computes and nothing changes later. */
  datatype Geometry = Geometry(
    fatBeginSector: U32,
    clusterBeginSector: U32,
    rootDirSector: U32,
    rootCluster: U32,
    sectorsPerCluster: Byte)

  datatype BootSector = BootSector(
    reservedSectors: U16,
    numberOfFats: Byte,
    sectorsPerFat: U32,
    sectorsPerCluster: Byte,
    rootCluster: U32)

  /** fat32_calc_lba_from_cluster */
  function LbaFromCluster(clusterBegin: U32, sectorsPerCluster: Byte, cluster: U32): U32 {
    Wrap32(clusterBegin + (cluster - 2) * sectorsPerCluster)
  }

  /** fat32_set_context */
  function SetContext(startSector: U32, bs: BootSector): Geometry {
    var clusterBegin := Wrap32(startSector + bs.reservedSectors + bs.numberOfFats * bs.sectorsPerFat);
    Geometry(Wrap32(startSector + bs.reservedSectors),
             clusterBegin,
             LbaFromCluster(clusterBegin, bs.sectorsPerCluster, bs.rootCluster),
             bs.rootCluster,
             bs.sectorsPerCluster)
  }

  // ---- byte addresses ----

  function EntryAddr(g: Geometry, slot: U32): U32 {
    Wrap32(g.rootDirSector * 512 + 32 * slot)
  }

  function FatAddr(g: Geometry, cluster: U32): U32 {
    Wrap32(512 * g.fatBeginSector + 4 * cluster)
  }

  function ClusterBytes(g: Geometry): nat {
    g.sectorsPerCluster * 512
  }

  /** start_byte_offset of a file whose data begins in `cluster` */
  function ClusterAddr(g: Geometry, cluster: U32): U32 {
    Wrap32(g.clusterBeginSector * 512 + (cluster - 2) * g.sectorsPerCluster * 512)
  }

  /** The whole cluster lies below 2^32, so its address does not wrap around. */
  ghost predicate ClusterFits(g: Geometry, cluster: U32) {
    2 <= cluster && 0 < g.sectorsPerCluster &&
    g.clusterBeginSector * 512 + (cluster - 2) * ClusterBytes(g) + ClusterBytes(g) <= 0x1_0000_0000
  }

  ghost predicate InCluster(g: Geometry, cluster: U32, a: nat) {
    ClusterAddr(g, cluster) <= a < ClusterAddr(g, cluster) + ClusterBytes(g)
  }

  lemma ClusterAddrExact(g: Geometry, c: U32)
    requires ClusterFits(g, c)
    ensures ClusterAddr(g, c) == g.clusterBeginSector * 512 + (c - 2) * ClusterBytes(g)
  {
    assert (c - 2) * g.sectorsPerCluster * 512 == (c - 2) * ClusterBytes(g);
    assert (c - 2) * ClusterBytes(g) >= 0;
    var x := g.clusterBeginSector * 512 + (c - 2) * ClusterBytes(g);
    assert 0 <= x < 0x1_0000_0000;
    assert x % 0x1_0000_0000 == x;
  }

  /** Distinct clusters occupy disjoint byte ranges. */
  lemma ClustersDisjoint(g: Geometry, c: U32, d: U32, a: nat)
    requires ClusterFits(g, c) && ClusterFits(g, d)
    requires InCluster(g, c, a) && InCluster(g, d, a)
    ensures c == d
  {
    ClusterAddrExact(g, c);
    ClusterAddrExact(g, d);
    hide ClusterAddr, ClusterBytes, ClusterFits;
    SameBlock(g.clusterBeginSector * 512, ClusterBytes(g), c - 2, d - 2, a);
  }

  // ---- the 32-byte directory entry ----

  type Entry = e: seq<Byte> | |e| == 32 witness seq(32, _ => 0)
  type Name = s: seq<Byte> | |s| == 8 witness seq(8, _ => 0)
  type Ext = s: seq<Byte> | |s| == 3 witness seq(3, _ => 0)

  const NEVER_USED: Byte := 0x00
  const DELETED: Byte := 0xE5

  function NameOf(e: Entry): Name { e[0..8] }

  function ExtOf(e: Entry): Ext { e[8..11] }

  function AttrOf(e: Entry): Byte { e[11] }

  function SizeOf(e: Entry): U32 { FromLe32(e[28..32]) }

  function WithSize(e: Entry, size: U32): Entry { e[..28] + Le32(size) }

  /** fat32_calc_first_cluster of the two halves stored in the entry */
  function FirstClusterOf(e: Entry): U32 {
    0x1_0000 * FromLe16(e[20..22]) + FromLe16(e[26..28])
  }

  /** strncpy into a field as long as the source field: what follows a NUL is zero. */
  function StrNCpy(src: seq<Byte>): (dst: seq<Byte>)
    ensures |dst| == |src|
  {
    if src == [] then []
    else if src[0] == 0 then seq(|src|, _ => 0)
    else [src[0]] + StrNCpy(src[1..])
  }

  /** strncmp(a, b, n) == 0 on two fields of n bytes */
  predicate StrNEq(a: seq<Byte>, b: seq<Byte>)
    requires |a| == |b|
  {
    a == [] || (a[0] == b[0] && (a[0] == 0 || StrNEq(a[1..], b[1..])))
  }

  /** strncmp cannot tell two names apart exactly when strncpy stores the same bytes for them. */
  lemma {:induction false} SameNameIffSameField(a: seq<Byte>, b: seq<Byte>)
    requires |a| == |b|
    ensures StrNEq(a, b) <==> StrNCpy(a) == StrNCpy(b)
  {
    if a != [] {
      SameNameIffSameField(a[1..], b[1..]);
      if a[0] != 0 {
        assert StrNCpy(a)[0] == a[0] && StrNCpy(a)[1..] == StrNCpy(a[1..]);
      }
      if b[0] != 0 {
        assert StrNCpy(b)[0] == b[0] && StrNCpy(b)[1..] == StrNCpy(b[1..]);
      }
      if a[0] == 0 {
        assert StrNCpy(a)[0] == 0;
      }
      if b[0] == 0 {
        assert StrNCpy(b)[0] == 0;
      }
    }
  }

  /** The entry that fat32_creat_file builds. */
  function NewEntry(name: Name, ext: Ext, cluster: U32): Entry {
    StrNCpy(name) + StrNCpy(ext) + seq(9, _ => 0) +
    Le16(cluster / 0x1_0000) + [0, 0, 0, 0] + Le16(cluster % 0x1_0000) + Le32(0)
  }

  /** The cluster split into two halves recombines, and the rest of the entry is as asked for. */
  lemma NewEntryFields(name: Name, ext: Ext, cluster: U32)
    ensures var e := NewEntry(name, ext, cluster);
            && FirstClusterOf(e) == cluster && SizeOf(e) == 0 && AttrOf(e) == 0
            && StrNEq(NameOf(e), name) && StrNEq(ExtOf(e), ext)
  {
    var e := NewEntry(name, ext, cluster);
    assert e[20..22] == Le16(cluster / 0x1_0000);
    assert e[26..28] == Le16(cluster % 0x1_0000);
    assert e[28..32] == Le32(0);
    assert e[0..8] == StrNCpy(name) && e[8..11] == StrNCpy(ext);
    StrNCpyTwice(name);
    StrNCpyTwice(ext);
    SameNameIffSameField(NameOf(e), name);
    SameNameIffSameField(ExtOf(e), ext);
  }

  lemma {:induction false} StrNCpyTwice(a: seq<Byte>)
    ensures StrNCpy(StrNCpy(a)) == StrNCpy(a)
  {
    if a != [] && a[0] != 0 {
      StrNCpyTwice(a[1..]);
      assert StrNCpy(a)[1..] == StrNCpy(a[1..]);
    } else if a != [] {
      assert StrNCpy(a)[0] == 0;
    }
  }

  lemma WithSizeFields(e: Entry, size: U32, again: U32)
    ensures SizeOf(WithSize(e, size)) == size
    ensures WithSize(e, size)[..28] == e[..28]
    ensures WithSize(e, SizeOf(e)) == e
    ensures WithSize(WithSize(e, size), again) == WithSize(e, again)
  {
    Le32RoundTrip(size, e[28..32]);
    hide Le32, FromLe32;
    assert WithSize(e, size)[28..32] == Le32(size);
    assert e == e[..28] + e[28..32];
  }
}
