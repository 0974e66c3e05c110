/** What one step does to one file: its stored blocks on one side, its contents on the other. */
module Edits {
  import opened Bytes
  import opened Volumes
  import opened FileNodes
  import opened Layout

  /** Growing a file inside its tail block: which bytes that adds, and what the new size looks like. */
  lemma TailGrows(size: nat, n: nat, bs: BlockSize)
    requires 0 < n && OffsetOf(size, bs) + n <= bs
    ensures var q, t := BlockOf(size, bs), OffsetOf(size, bs);
            && BlockCount(size + n, bs) == q + 1
            && OffsetOf(size + n, bs) == (if t + n < bs then t + n else 0)
            && (t + n < bs ==> BlockOf(size + n, bs) == q)
            && forall p: nat | size <= p < size + n :: BlockOf(p, bs) == q && OffsetOf(p, bs) == p - size + t
  {
    var q, t := BlockOf(size, bs), OffsetOf(size, bs);
    ByteIndex(size, bs);
    if t + n < bs {
      ByteIndexUnique(q, t + n, bs, size + n);
    } else {
      assert (q + 1) * bs == q * bs + bs;
      ByteIndexUnique(q + 1, 0, bs, size + n);
    }
    forall p: nat | size <= p < size + n
      ensures BlockOf(p, bs) == q && OffsetOf(p, bs) == p - size + t
    {
      ByteIndexUnique(q, p - size + t, bs, p);
    }
  }

  /** A tail block that holds its old bytes, then `data`, then zeros, appends `data` to the contents. */
  lemma TailStep(d0: Disk, d1: Disk, bs: BlockSize, f: File, g: File, data: seq<byte>)
    requires 0 < |data| && OffsetOf(f.size, bs) + |data| <= bs && g.size == f.size + |data|
    requires forall i: nat | i < BlockOf(f.size, bs) :: FileBlock(d1, bs, g, i) == FileBlock(d0, bs, f, i)
    requires var q, t := BlockOf(f.size, bs), OffsetOf(f.size, bs);
             FileBlock(d1, bs, g, q) == FileBlock(d0, bs, f, q)[..t] + data + Zeros(bs - t - |data|)
    ensures Contents(d1, bs, g) == Contents(d0, bs, f) + data && Padded(d1, bs, g)
  {
    hide BlockOf, OffsetOf, FileBlock;
    var c0, c1 := Contents(d0, bs, f), Contents(d1, bs, g);
    TailGrows(f.size, |data|, bs);
    forall p: nat | p < g.size
      ensures c1[p] == (c0 + data)[p]
    {
      if p < f.size {
        BlockInFile(f.size, bs, p);
      }
    }
  }

  /** A block that is rewritten in part splices the contents. */
  lemma SpliceStep(d0: Disk, d1: Disk, bs: BlockSize, f: File, g: File, x: nat, o: nat, data: seq<byte>, pos: nat)
    requires o + |data| <= bs && AtByte(bs, x, o, pos) && pos + |data| <= f.size == g.size
    requires Padded(d0, bs, f)
    requires forall i: nat | i < BlockCount(f.size, bs) && i != x :: FileBlock(d1, bs, g, i) == FileBlock(d0, bs, f, i)
    requires FileBlock(d1, bs, g, x) == Splice(FileBlock(d0, bs, f, x), o, data)
    ensures Contents(d1, bs, g) == Splice(Contents(d0, bs, f), pos, data) && Padded(d1, bs, g)
  {
    hide BlockOf, OffsetOf, FileBlock, BlockCount, AtByte, Padded;
    var c0, c1 := Contents(d0, bs, f), Contents(d1, bs, g);
    forall p: nat | p < f.size
      ensures c1[p] == Splice(c0, pos, data)[p]
    {
      ByteInBlock(bs, x, o, |data|, pos, p);
      BlockInFile(f.size, bs, p);
    }
    SplicePadded(d0, d1, bs, f, g, x, o, data, pos);
  }

  lemma SplicePadded(d0: Disk, d1: Disk, bs: BlockSize, f: File, g: File, x: nat, o: nat, data: seq<byte>, pos: nat)
    requires o + |data| <= bs && AtByte(bs, x, o, pos) && pos + |data| <= f.size == g.size
    requires Padded(d0, bs, f)
    requires forall i: nat | i < BlockCount(f.size, bs) && i != x :: FileBlock(d1, bs, g, i) == FileBlock(d0, bs, f, i)
    requires FileBlock(d1, bs, g, x) == Splice(FileBlock(d0, bs, f, x), o, data)
    ensures Padded(d1, bs, g)
  {
    hide BlockOf, OffsetOf, FileBlock, AtByte;
    var q, t := BlockOf(f.size, bs), OffsetOf(f.size, bs);
    if t > 0 && q == x {
      forall k | t <= k < bs
        ensures FileBlock(d1, bs, g, q)[k] == 0
      {
        PastEnd(bs, f.size, x, o, |data|, pos, k);
      }
    }
  }

  /** A range inside the file does not reach the bytes behind its end. */
  lemma PastEnd(bs: BlockSize, size: nat, x: nat, o: nat, n: nat, pos: nat, k: nat)
    requires o + n <= bs && AtByte(bs, x, o, pos) && pos + n <= size
    requires OffsetOf(size, bs) <= k < bs && BlockOf(size, bs) == x
    ensures !(o <= k < o + n)
  {
    hide BlockOf, OffsetOf;
    ByteIndex(size, bs);
  }
}
