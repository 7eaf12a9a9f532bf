/** A card seen as one flat array of bytes: what the io layer promises its callers. */
module Store {
  import opened Bytes

  const SECTOR_SIZE := 512

  type Sector = s: seq<Byte> | |s| == 512 witness seq(512, _ => 0)
  type Disk = seq<Sector>

  function Size(d: Disk): nat {
    512 * |d|
  }

  function Peek(d: Disk, a: nat): Byte
    requires a < Size(d)
  {
    d[a / 512][a % 512]
  }

  function Poke(d: Disk, a: nat, b: Byte): (d': Disk)
    requires a < Size(d)
    ensures |d'| == |d|
  {
    d[a / 512 := d[a / 512][a % 512 := b]]
  }

  /** The `n` bytes from address `a` on. */
  function PeekAll(d: Disk, a: nat, n: nat): (bs: seq<Byte>)
    requires a + n <= Size(d)
    ensures |bs| == n
    ensures forall i :: 0 <= i < n ==> bs[i] == Peek(d, a + i)
  {
    seq<Byte>(n, i requires 0 <= i < n => Peek(d, a + i))
  }

  /** The first `n` bytes of `bs` stored from address `a` on. */
  function PokeFirst(d: Disk, a: nat, bs: seq<Byte>, n: nat): (d': Disk)
    requires n <= |bs| && (n > 0 ==> a + n <= Size(d))
    ensures |d'| == |d|
  {
    if n == 0 then d else Poke(PokeFirst(d, a, bs, n - 1), a + n - 1, bs[n - 1])
  }

  function PokeAll(d: Disk, a: nat, bs: seq<Byte>): (d': Disk)
    requires bs != [] ==> a + |bs| <= Size(d)
    ensures |d'| == |d|
  {
    PokeFirst(d, a, bs, |bs|)
  }

  lemma PeekPoke(d: Disk, a: nat, b: Byte, x: nat)
    requires a < Size(d) && x < Size(d)
    ensures Peek(Poke(d, a, b), x) == if x == a then b else Peek(d, x)
  {
  }

  /** Reading back any address after a block was stored. */
  lemma {:induction false} PeekPokeFirst(d: Disk, a: nat, bs: seq<Byte>, n: nat, x: nat)
    requires n <= |bs| && (n > 0 ==> a + n <= Size(d)) && x < Size(d)
    ensures Peek(PokeFirst(d, a, bs, n), x) == if a <= x < a + n then bs[x - a] else Peek(d, x)
  {
    if n != 0 {
      PeekPokeFirst(d, a, bs, n - 1, x);
      PeekPoke(PokeFirst(d, a, bs, n - 1), a + n - 1, bs[n - 1], x);
    }
  }

  lemma {:induction false} PokeFirstPrefix(d: Disk, a: nat, bs: seq<Byte>, n: nat, m: nat)
    requires n <= m <= |bs| && (n > 0 ==> a + n <= Size(d))
    ensures PokeFirst(d, a, bs[..m], n) == PokeFirst(d, a, bs, n)
  {
    if n != 0 {
      PokeFirstPrefix(d, a, bs, n - 1, m);
    }
  }

  lemma PeekPokeAll(d: Disk, a: nat, bs: seq<Byte>, x: nat)
    requires (bs != [] ==> a + |bs| <= Size(d)) && x < Size(d)
    ensures Peek(PokeAll(d, a, bs), x) == if a <= x < a + |bs| then bs[x - a] else Peek(d, x)
  {
    PeekPokeFirst(d, a, bs, |bs|, x);
  }

  lemma PeekAllPokeAll(d: Disk, a: nat, bs: seq<Byte>)
    requires a + |bs| <= Size(d)
    ensures PeekAll(PokeAll(d, a, bs), a, |bs|) == bs
  {
    var e := PokeAll(d, a, bs);
    forall y | a <= y < a + |bs| ensures Peek(e, y) == bs[y - a] {
      PeekPokeAll(d, a, bs, y);
    }
  }

  /** A block read is unchanged by a store that does not meet it. */
  lemma PeekAllFrame(d: Disk, a: nat, bs: seq<Byte>, x: nat, n: nat)
    requires (bs != [] ==> a + |bs| <= Size(d)) && x + n <= Size(d)
    requires x + n <= a || a + |bs| <= x
    ensures PeekAll(PokeAll(d, a, bs), x, n) == PeekAll(d, x, n)
  {
    var e := PokeAll(d, a, bs);
    forall y | x <= y < x + n ensures Peek(e, y) == Peek(d, y) {
      PeekPokeAll(d, a, bs, y);
    }
  }
}
