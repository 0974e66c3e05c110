/**
 * Views as volumes: what meets the contract on bytes meets the block contract of the base volume, on a disk it shows.
 */
module Nesting {
  import opened Bytes
  import opened Volumes

  /** In blocks of `bs` bytes, disk `d` shows just this view. */
  ghost predicate OnDisk(d: Disk, bs: BlockSize, v: View) {
    forall p: nat {:trigger v(p)} :: v(p) == DiskView(d, bs)(p)
  }

  /** The bytes `c`, cut into blocks of `bs`, the last one filled up with zeros. */
  ghost function DiskOf(c: seq<byte>, bs: BlockSize): Disk {
    map b: nat | b < |c| :: BlockAt(c, bs, b)
  }

  ghost function BlockAt(c: seq<byte>, bs: BlockSize, b: nat): (s: seq<byte>)
    ensures |s| == bs
  {
    seq(bs, (o: nat) => if 0 <= b * bs + o < |c| then c[b * bs + o] else 0)
  }

  /** Any finite contents are what some disk shows. */
  lemma DiskOfShows(c: seq<byte>, bs: BlockSize)
    ensures OnDisk(DiskOf(c, bs), bs, ContentView(c))
  {
    hide BlockOf, OffsetOf;
    forall p: nat ensures ContentView(c)(p) == DiskView(DiskOf(c, bs), bs)(p) {
      var b, o := BlockOf(p, bs), OffsetOf(p, bs);
      ByteIndex(p, bs);
      MulLe(1, bs, b);
      if b < |c| {
        assert BlockAt(c, bs, b)[o] == if b * bs + o < |c| then c[b * bs + o] else 0;
      }
    }
  }

  lemma ShownOnDisk(d: Disk, bs: BlockSize, v: View, b: nat, offset: nat, size: nat, pos: nat)
    requires OnDisk(d, bs, v) && offset + size <= bs && AtByte(bs, b, offset, pos)
    ensures Shows(v, pos, Blk(d, bs, b)[offset..offset + size])
  {
    hide Blk, DiskView;
    BlockShows(d, bs, b, offset, size, pos);
    var s := Blk(d, bs, b)[offset..offset + size];
    forall i | 0 <= i < size ensures s[i] == v(pos + i) {
      assert v(pos + i) == DiskView(d, bs)(pos + i);
    }
  }

  /** What is read is what the block holds. */
  lemma ReadOnDisk(d: Disk, bs: BlockSize, v: View, b: nat, offset: nat, s: seq<byte>, pos: nat)
    requires OnDisk(d, bs, v) && offset + |s| <= bs && AtByte(bs, b, offset, pos) && Shows(v, pos, s)
    ensures s == Blk(d, bs, b)[offset..offset + |s|]
  {
    hide Blk, OnDisk, AtByte;
    ShownOnDisk(d, bs, v, b, offset, |s|, pos);
    var t := Blk(d, bs, b)[offset..offset + |s|];
    forall i | 0 <= i < |s| ensures s[i] == t[i] {
      assert s[i] == v(pos + i) && t[i] == v(pos + i);
    }
  }

  /** A store sets that part of the block. */
  lemma StoredOnDisk(d0: Disk, d1: Disk, bs: BlockSize, v0: View, v1: View, b: nat, offset: nat, s: seq<byte>, pos: nat)
    requires OnDisk(d0, bs, v0) && OnDisk(d1, bs, v1)
    requires offset + |s| <= bs && AtByte(bs, b, offset, pos) && Stored(v0, v1, pos, s)
    ensures BlockSet(d0, d1, bs, b, Splice(Blk(d0, bs, b), offset, s))
  {
    hide Blk, BlockSet, Splice;
    var w0, w1 := DiskView(d0, bs), DiskView(d1, bs);
    forall p: nat {:trigger w1(p)} ensures w1(p) == if pos <= p < pos + |s| then s[p - pos] else w0(p) {
      assert v1(p) == w1(p) && v0(p) == w0(p);
    }
    StoreSets(d0, d1, bs, b, offset, s, pos);
  }

  /** A copy splices in what the part of the other block was. */
  lemma CopiedOnDisk(d0: Disk, d1: Disk, bs: BlockSize, v0: View, v1: View,
                     sb: nat, so: nat, db: nat, do: nat, size: nat, from: nat, to: nat)
    requires OnDisk(d0, bs, v0) && OnDisk(d1, bs, v1)
    requires so + size <= bs && do + size <= bs && AtByte(bs, sb, so, from) && AtByte(bs, db, do, to)
    requires Copied(v0, v1, to, from, size)
    ensures BlockSet(d0, d1, bs, db, Splice(Blk(d0, bs, db), do, Blk(d0, bs, sb)[so..so + size]))
  {
    hide Blk, BlockSet, Splice, OnDisk, Shows, Copied, Stored, AtByte;
    var s := Blk(d0, bs, sb)[so..so + size];
    ShownOnDisk(d0, bs, v0, sb, so, size, from);
    CopiedIsStored(v0, v1, to, from, s);
    StoredOnDisk(d0, d1, bs, v0, v1, db, do, s, to);
  }

  lemma DiscardedOnDisk(d0: Disk, d1: Disk, bs: BlockSize, v0: View, v1: View, index: nat, count: nat)
    requires OnDisk(d0, bs, v0) && OnDisk(d1, bs, v1) && Discarded(v0, v1, bs, index, count)
    ensures BlocksCleared(d0, d1, bs, index, count)
  {
    hide Blk, BlockOf;
    var w0, w1 := DiskView(d0, bs), DiskView(d1, bs);
    forall p: nat {:trigger w1(p)} ensures w1(p) == if index <= BlockOf(p, bs) < index + count then 0 else w0(p) {
      assert v1(p) == w1(p) && v0(p) == w0(p);
    }
    DiscardClears(d0, d1, bs, index, count);
  }

  /** All stored blocks lie below this one. */
  ghost function Reach(d: Disk): (n: nat)
    ensures forall b | b in d :: b < n
    decreases |d|
  {
    if d == map[] then 0
    else
      var b :| b in d;
      var n := Reach(d - {b});
      assert forall c | c in d && c != b :: c in d - {b};
      if b < n then n else b + 1
  }
}
