/** Block volumes: the storage contract, and byte-granular read, write and memmove on top of it. */
module Volumes {
  import opened Bytes

  type BlockSize = n: nat | n > 0 witness 1

  /** The unit of disks and of the tables on them. */
  const SECTOR_SIZE: nat := 512

  /** Stored blocks by index. A block that is absent (never written, or discarded) reads as zeros. */
  type Disk = map<nat, seq<byte>>

  function Blk(d: Disk, bs: BlockSize, b: nat): (r: seq<byte>)
    ensures |r| == bs
  {
    if b in d && |d[b]| == bs then d[b] else Zeros(bs)
  }

  /** The endless run of bytes a volume shows, by byte offset. */
  type View = nat -> byte

  ghost function DiskView(d: Disk, bs: BlockSize): View {
    (p: nat) => Blk(d, bs, BlockOf(p, bs))[OffsetOf(p, bs)]
  }

  /** What finite contents show: themselves, and zeros behind its end. */
  ghost function ContentView(c: seq<byte>): View {
    (p: nat) => if p < |c| then c[p] else 0
  }

  /* The contract every volume implementation meets, stated on views. */

  /** The volume shows `s` from byte `pos` on. */
  ghost predicate Shows(v: View, pos: nat, s: seq<byte>) {
    forall i | 0 <= i < |s| :: s[i] == v(pos + i)
  }

  /** `s` was stored at `pos` and nothing else changed. */
  ghost predicate Stored(v0: View, v1: View, pos: nat, s: seq<byte>) {
    forall p: nat {:trigger v1(p)} :: v1(p) == if pos <= p < pos + |s| then s[p - pos] else v0(p)
  }

  /** `size` bytes were copied from `src` to `dst` as they were before, and nothing else changed. */
  ghost predicate Copied(v0: View, v1: View, dst: nat, src: nat, size: nat) {
    forall p: nat {:trigger v1(p)} :: v1(p) == if dst <= p < dst + size then v0(p - dst + src) else v0(p)
  }

  /** What a volume of `bs`-byte blocks shows once its blocks from `index` up to `index + count` are discarded. */
  ghost predicate Discarded(v0: View, v1: View, bs: BlockSize, index: nat, count: nat) {
    forall p: nat {:trigger v1(p)} :: v1(p) == if index <= BlockOf(p, bs) < index + count then 0 else v0(p)
  }

  /** Block `b` now holds `x` and every other block is unchanged. */
  ghost predicate BlockSet(d0: Disk, d1: Disk, bs: BlockSize, b: nat, x: seq<byte>) {
    forall c: nat :: Blk(d1, bs, c) == if c == b then x else Blk(d0, bs, c)
  }

  /** The blocks from `index` up to `index + count` hold zeros now, and no others have changed. */
  ghost predicate BlocksCleared(d0: Disk, d1: Disk, bs: BlockSize, index: nat, count: nat) {
    forall b: nat {:trigger Blk(d1, bs, b)} ::
      Blk(d1, bs, b) == if index <= b < index + count then Zeros(bs) else Blk(d0, bs, b)
  }

  class Volume {
    const blocksize: BlockSize
    var store: Disk

    constructor (bs: BlockSize)
      ensures blocksize == bs && store == map[]
    {
      blocksize := bs;
      store := map[];
    }

    ghost function View(): View
      reads this
    {
      DiskView(store, blocksize)
    }

    method ReadBlock(index: nat) returns (data: seq<byte>)
      ensures data == Blk(store, blocksize, index)
    {
      data := if index in store && |store[index]| == blocksize then store[index] else Zeros(blocksize);
    }

    method ReadPartialBlock(index: nat, offset: nat, size: nat) returns (data: seq<byte>)
      requires offset + size <= blocksize
      ensures data == Blk(store, blocksize, index)[offset..offset + size]
    {
      var b := ReadBlock(index);
      data := b[offset..offset + size];
    }

    method WriteBlock(index: nat, data: Buffer)
      requires data.Len() == blocksize
      modifies this
      ensures BlockSet(old(store), store, blocksize, index, data.Bytes())
    {
      if data.Null? {
        DiscardBlocks(index, 1);
      } else {
        store := store[index := data.bytes];
      }
    }

    method WritePartialBlock(index: nat, data: Buffer, offset: nat)
      requires offset + data.Len() <= blocksize
      modifies this
      ensures BlockSet(old(store), store, blocksize, index,
                       Splice(Blk(old(store), blocksize, index), offset, data.Bytes()))
    {
      var b := ReadBlock(index);
      store := store[index := Splice(b, offset, data.Bytes())];
    }

    method MoveBlock(src: nat, dst: nat)
      modifies this
      ensures BlockSet(old(store), store, blocksize, dst, Blk(old(store), blocksize, src))
    {
      var b := ReadBlock(src);
      store := store[dst := b];
    }

    method MoveBlockPartial(src: nat, dst: nat, srcOffset: nat, dstOffset: nat, size: nat)
      requires srcOffset + size <= blocksize && dstOffset + size <= blocksize
      modifies this
      ensures BlockSet(old(store), store, blocksize, dst,
                       Splice(Blk(old(store), blocksize, dst), dstOffset,
                              Blk(old(store), blocksize, src)[srcOffset..srcOffset + size]))
    {
      var s := ReadPartialBlock(src, srcOffset, size);
      var b := ReadBlock(dst);
      store := store[dst := Splice(b, dstOffset, s)];
    }

    method DiscardBlocks(index: nat, count: nat)
      modifies this
      ensures BlocksCleared(old(store), store, blocksize, index, count)
    {
      store := map b | b in store && !(index <= b < index + count) :: store[b];
    }
  }

  /** Byte `p` lies in a range of block `b` exactly when its block and offset say so. */
  lemma InBlock(bs: BlockSize, b: nat, offset: nat, size: nat, pos: nat, p: nat)
    requires offset + size <= bs && pos == b * bs + offset
    ensures pos <= p < pos + size <==> BlockOf(p, bs) == b && offset <= OffsetOf(p, bs) < offset + size
    ensures BlockOf(p, bs) == b ==> p - pos == OffsetOf(p, bs) - offset
  {
    ByteIndex(p, bs);
    if pos <= p < pos + size {
      ByteIndexUnique(b, p - b * bs, bs, p);
    }
  }

  /** Setting one block is a store of its changed part at the block's byte offset. */
  lemma SpliceStores(d0: Disk, d1: Disk, bs: BlockSize, b: nat, offset: nat, s: seq<byte>, pos: nat)
    requires offset + |s| <= bs && pos == b * bs + offset
    requires BlockSet(d0, d1, bs, b, Splice(Blk(d0, bs, b), offset, s))
    ensures Stored(DiskView(d0, bs), DiskView(d1, bs), pos, s)
  {
    hide Blk;
    var v0, v1 := DiskView(d0, bs), DiskView(d1, bs);
    forall p: nat
      ensures v1(p) == if pos <= p < pos + |s| then s[p - pos] else v0(p)
    {
      var q, o := BlockOf(p, bs), OffsetOf(p, bs);
      InBlock(bs, b, offset, |s|, pos, p);
      assert v1(p) == Blk(d1, bs, q)[o] && v0(p) == Blk(d0, bs, q)[o];
    }
  }

  /** A range inside one block is shown at the block's byte offset. */
  lemma BlockShows(d: Disk, bs: BlockSize, b: nat, offset: nat, size: nat, pos: nat)
    requires offset + size <= bs && pos == b * bs + offset
    ensures Shows(DiskView(d, bs), pos, Blk(d, bs, b)[offset..offset + size])
  {
    hide Blk, BlockOf, OffsetOf;
    var s, v := Blk(d, bs, b)[offset..offset + size], DiskView(d, bs);
    forall i | 0 <= i < size
      ensures s[i] == v(pos + i)
    {
      InBlock(bs, b, offset, size, pos, pos + i);
    }
  }

  /** Discarding blocks is what the contract says on views too. */
  lemma DiscardShows(d0: Disk, d1: Disk, bs: BlockSize, index: nat, count: nat)
    requires BlocksCleared(d0, d1, bs, index, count)
    ensures Discarded(DiskView(d0, bs), DiskView(d1, bs), bs, index, count)
  {
    hide Blk, BlockOf, OffsetOf;
    var v0, v1 := DiskView(d0, bs), DiskView(d1, bs);
    forall p: nat ensures v1(p) == if index <= BlockOf(p, bs) < index + count then 0 else v0(p) {
      var q, o := BlockOf(p, bs), OffsetOf(p, bs);
      assert v1(p) == Blk(d1, bs, q)[o] && v0(p) == Blk(d0, bs, q)[o];
    }
  }

  /** Copying is storing what was shown. */
  lemma ShownThenStored(v0: View, v1: View, dst: nat, src: nat, s: seq<byte>)
    requires Shows(v0, src, s) && Stored(v0, v1, dst, s)
    ensures Copied(v0, v1, dst, src, |s|)
  {
    forall p: nat
      ensures v1(p) == if dst <= p < dst + |s| then v0(p - dst + src) else v0(p)
    {
      if dst <= p < dst + |s| {
        assert s[p - dst] == v0(src + (p - dst));
      }
    }
  }

  /** One step of a copy loop: a range within a block lands within a block. */
  lemma ChunkCopied(d0: Disk, d1: Disk, bs: BlockSize, sb: nat, so: nat, db: nat, do: nat, size: nat, from: nat,
                    to: nat)
    requires so + size <= bs && do + size <= bs
    requires from == sb * bs + so && to == db * bs + do
    requires BlockSet(d0, d1, bs, db, Splice(Blk(d0, bs, db), do, Blk(d0, bs, sb)[so..so + size]))
    ensures Copied(DiskView(d0, bs), DiskView(d1, bs), to, from, size)
  {
    var s := Blk(d0, bs, sb)[so..so + size];
    SpliceStores(d0, d1, bs, db, do, s, to);
    BlockShows(d0, bs, sb, so, size, from);
    ShownThenStored(DiskView(d0, bs), DiskView(d1, bs), to, from, s);
  }

  /** Copying the front of a range, then the rest, copies the range, if the front does not overwrite the rest. */
  lemma CopyFrontThenRest(v0: View, v1: View, v2: View, dst: nat, src: nat, done: nat, d: nat, s: nat, more: nat)
    requires d == dst + done && s == src + done
    requires Copied(v0, v1, dst, src, done) && Copied(v1, v2, d, s, more)
    requires dst <= src || src + done + more <= dst
    ensures Copied(v0, v2, dst, src, done + more)
  {
    forall p: nat
      ensures v2(p) == if dst <= p < dst + (done + more) then v0(p - dst + src) else v0(p)
    {
      if d <= p < d + more {
        assert v1(p - dst + src) == v0(p - dst + src);
      }
    }
  }

  /** The same from the back, for a destination at or after the source: `d` and `s` lie `more` before the done part. */
  lemma CopyBackThenRest(v0: View, v1: View, v2: View, dst: nat, src: nat, done: nat, d: nat, s: nat, more: nat)
    requires s <= d && d + more == dst && s + more == src
    requires Copied(v0, v1, dst, src, done) && Copied(v1, v2, d, s, more)
    ensures Copied(v0, v2, d, s, more + done)
  {
    forall p: nat
      ensures v2(p) == if d <= p < d + (more + done) then v0(p - d + s) else v0(p)
    {
      if d <= p < d + more {
        assert v1(p - d + s) == v0(p - d + s);
      }
    }
  }

  /** Offset `offset` of block `b` is byte `p`. */
  ghost predicate AtByte(bs: BlockSize, b: nat, offset: nat, p: nat) {
    p == b * bs + offset
  }

  lemma ByteInBlock(bs: BlockSize, b: nat, offset: nat, size: nat, pos: nat, p: nat)
    requires offset + size <= bs && AtByte(bs, b, offset, pos)
    ensures pos <= p < pos + size <==> BlockOf(p, bs) == b && offset <= OffsetOf(p, bs) < offset + size
    ensures BlockOf(p, bs) == b ==> p - pos == OffsetOf(p, bs) - offset
  {
    InBlock(bs, b, offset, size, pos, p);
  }

  /** The body shared by both copy loops: whole blocks are moved as such, anything else as a part. */
  method MoveChunk(vol: Volume, sb: nat, so: nat, db: nat, do: nat, size: nat, ghost from: nat, ghost to: nat)
    requires so + size <= vol.blocksize && do + size <= vol.blocksize
    requires AtByte(vol.blocksize, sb, so, from) && AtByte(vol.blocksize, db, do, to)
    modifies vol
    ensures Copied(old(vol.View()), vol.View(), to, from, size)
  {
    ghost var d1 := vol.store;
    if so == 0 && do == 0 && size == vol.blocksize {
      vol.MoveBlock(sb, db);
      assert Splice(Blk(d1, size, db), 0, Blk(d1, size, sb)[0..size]) == Blk(d1, size, sb);
    } else {
      vol.MoveBlockPartial(sb, db, so, do, size);
    }
    ChunkCopied(d1, vol.store, vol.blocksize, sb, so, db, do, size, from, to);
  }

  method CopyForward(vol: Volume, dst: nat, src: nat, size: nat)
    requires dst <= src || src + size <= dst
    modifies vol
    ensures Copied(old(vol.View()), vol.View(), dst, src, size)
  {
    var bs := vol.blocksize;
    var d: nat, s: nat, left: nat := dst, src, size;
    ghost var v0 := vol.View();
    ghost var done: nat := 0;
    while left > 0
      invariant done + left == size && d == dst + done && s == src + done
      invariant Copied(v0, vol.View(), dst, src, done)
    {
      var srcIdx, srcOffset := s / bs, s % bs;
      var dstIdx, dstOffset := d / bs, d % bs;
      DivModIndex(s, bs);
      DivModIndex(d, bs);
      var diff := if bs - srcOffset < bs - dstOffset then bs - srcOffset else bs - dstOffset;
      if diff > left {
        diff := left;
      }
      ghost var v1 := vol.View();
      MoveChunk(vol, srcIdx, srcOffset, dstIdx, dstOffset, diff, s, d);
      CopyFrontThenRest(v0, v1, vol.View(), dst, src, done, d, s, diff);
      s, d, left, done := s + diff, d + diff, left - diff, done + diff;
    }
  }

  /** The largest chunk that ends at bytes `s` and `d` and stays inside one block on either side. */
  method ChunkBefore(bs: BlockSize, s: nat, d: nat, left: nat)
    returns (srcIdx: nat, srcOffset: nat, dstIdx: nat, dstOffset: nat, diff: nat)
    requires left > 0
    ensures 0 < diff <= left && srcOffset + diff <= bs && dstOffset + diff <= bs
    ensures diff <= s + 1 && diff <= d + 1
    ensures AtByte(bs, srcIdx, srcOffset, s + 1 - diff) && AtByte(bs, dstIdx, dstOffset, d + 1 - diff)
  {
    srcIdx, dstIdx := s / bs, d / bs;
    var srcDiff, dstDiff := s % bs + 1, d % bs + 1;
    DivModIndex(s, bs);
    DivModIndex(d, bs);
    srcOffset, dstOffset := 0, 0;
    diff := if dstDiff < srcDiff then dstDiff else srcDiff;
    if diff > left {
      diff := left;
    }
    if srcDiff > diff {
      srcOffset := srcOffset + (srcDiff - diff);
    }
    if dstDiff > diff {
      dstOffset := dstOffset + (dstDiff - diff);
    }
  }

  method CopyBackward(vol: Volume, dst: nat, src: nat, size: nat)
    requires src <= dst && size > 0
    modifies vol
    ensures Copied(old(vol.View()), vol.View(), dst, src, size)
  {
    // the last byte still to be copied; one below the range at the end
    var s: int, d: int, left: nat := src + size - 1, dst + size - 1, size;
    ghost var v0 := vol.View();
    // one past that byte, and how much is copied from there on
    ghost var d1: nat, s1: nat, done: nat := dst + size, src + size, 0;
    assert Copied(v0, v0, d1, s1, done);
    hide *;
    while left > 0
      invariant d + 1 == d1 == dst + left && s + 1 == s1 == src + left && done + left == size
      invariant Copied(v0, vol.View(), d1, s1, done)
    {
      var srcIdx, srcOffset, dstIdx, dstOffset, diff := ChunkBefore(vol.blocksize, s, d, left);
      ghost var v1, d2: nat, s2: nat := vol.View(), d1 - diff, s1 - diff;
      MoveChunk(vol, srcIdx, srcOffset, dstIdx, dstOffset, diff, s2, d2);
      CopyBackThenRest(v0, v1, vol.View(), d1, s1, done, d2, s2, diff);
      s, d, left := s - diff, d - diff, left - diff;
      s1, d1, done := s2, d2, diff + done;
    }
  }

  /** `memmove` on a volume: correct for every overlap, alignment and block size. */
  method VolumeMemmove(vol: Volume, dst: nat, src: nat, size: nat)
    modifies vol
    ensures Copied(old(vol.View()), vol.View(), dst, src, size)
  {
    if src == dst || size == 0 {
      return;
    }
    if src < dst && src + size - 1 >= dst {
      CopyBackward(vol, dst, src, size);
    } else {
      CopyForward(vol, dst, src, size);
    }
  }

  /** Storing `a`, then `b` right behind it, stores `a + b`. */
  lemma StoreFrontThenRest(v0: View, v1: View, v2: View, pos: nat, a: seq<byte>, next: nat, b: seq<byte>)
    requires next == pos + |a|
    requires Stored(v0, v1, pos, a) && Stored(v1, v2, next, b)
    ensures Stored(v0, v2, pos, a + b)
  {
  }

  lemma ShowFrontThenRest(v: View, pos: nat, a: seq<byte>, next: nat, b: seq<byte>)
    requires next == pos + |a|
    requires Shows(v, pos, a) && Shows(v, next, b)
    ensures Shows(v, pos, a + b)
  {
    var s := a + b;
    forall i | 0 <= i < |s|
      ensures s[i] == v(pos + i)
    {
      if i >= |a| {
        assert b[i - |a|] == v(next + (i - |a|));
      }
    }
  }

  /** Byte `pos` is the start of the block after the one that the last chunk filled up. */
  lemma NextBlock(bs: BlockSize, b: nat, offset: nat, pos: nat)
    requires AtByte(bs, b, offset, pos) && offset <= bs
    ensures AtByte(bs, b + 1, 0, pos + (bs - offset))
  {
    assert (b + 1) * bs == b * bs + bs;
  }

  lemma FirstBlock(bs: BlockSize, pos: nat)
    ensures 0 <= pos / bs && 0 <= pos % bs < bs && AtByte(bs, pos / bs, pos % bs, pos)
  {
    DivModIndex(pos, bs);
  }

  /** The part of a byte range that lies in one block, read as a block if it is one. */
  method ReadChunk(vol: Volume, index: nat, offset: nat, size: nat, ghost pos: nat) returns (data: seq<byte>)
    requires offset + size <= vol.blocksize && AtByte(vol.blocksize, index, offset, pos)
    ensures |data| == size && Shows(vol.View(), pos, data)
  {
    if offset == 0 && size == vol.blocksize {
      data := vol.ReadBlock(index);
      assert data == data[0..size];
    } else {
      data := vol.ReadPartialBlock(index, offset, size);
    }
    BlockShows(vol.store, vol.blocksize, index, offset, size, pos);
  }

  method VolumeRead(vol: Volume, offset: nat, size: nat) returns (data: seq<byte>)
    ensures |data| == size && Shows(vol.View(), offset, data)
  {
    var bs := vol.blocksize;
    FirstBlock(bs, offset);
    var blkIndex: nat, blkOffset: nat, left: nat := offset / bs, offset % bs, size;
    var blkSize: nat := bs - blkOffset;
    data := [];
    ghost var pos: nat, v := offset, vol.View();
    assert Shows(v, offset, data);
    hide *;
    while left > 0
      invariant blkOffset < bs && blkSize == bs - blkOffset
      invariant |data| + left == size && pos == offset + |data|
      invariant left > 0 ==> AtByte(bs, blkIndex, blkOffset, pos)
      invariant Shows(v, offset, data)
    {
      if blkSize > left {
        blkSize := left;
      }
      var chunk := ReadChunk(vol, blkIndex, blkOffset, blkSize, pos);
      ShowFrontThenRest(v, offset, data, pos, chunk);
      NextBlock(bs, blkIndex, blkOffset, pos);
      left, data, pos := left - blkSize, data + chunk, pos + blkSize;
      blkIndex, blkOffset, blkSize := blkIndex + 1, 0, bs;
    }
  }

  /** The part of a byte range that lies in one block: whole zero blocks are discarded. */
  method WriteChunk(vol: Volume, index: nat, offset: nat, data: Buffer, ghost pos: nat)
    requires offset + data.Len() <= vol.blocksize && AtByte(vol.blocksize, index, offset, pos)
    modifies vol
    ensures Stored(old(vol.View()), vol.View(), pos, data.Bytes())
  {
    ghost var d1 := vol.store;
    if offset == 0 && data.Len() == vol.blocksize {
      if data.ReadsZero() {
        vol.DiscardBlocks(index, 1);
      } else {
        vol.WriteBlock(index, data);
      }
      assert Splice(Blk(d1, vol.blocksize, index), 0, data.Bytes()) == data.Bytes();
      assert BlockSet(d1, vol.store, vol.blocksize, index, data.Bytes());
    } else {
      vol.WritePartialBlock(index, data, offset);
    }
    SpliceStores(d1, vol.store, vol.blocksize, index, offset, data.Bytes(), pos);
  }

  method VolumeWrite(vol: Volume, offset: nat, data: Buffer)
    modifies vol
    ensures Stored(old(vol.View()), vol.View(), offset, data.Bytes())
  {
    var bs := vol.blocksize;
    FirstBlock(bs, offset);
    var blkIndex: nat, blkOffset: nat, rest := offset / bs, offset % bs, data;
    var blkSize: nat := bs - blkOffset;
    ghost var v0 := vol.View();
    ghost var done: seq<byte>, pos: nat := [], offset;
    assert Stored(v0, v0, offset, done);
    while rest.Len() > 0
      invariant blkOffset < bs && blkSize == bs - blkOffset
      invariant done + rest.Bytes() == data.Bytes() && pos == offset + |done|
      invariant rest.Len() > 0 ==> AtByte(bs, blkIndex, blkOffset, pos)
      invariant Stored(v0, vol.View(), offset, done)
      decreases rest.Len()
    {
      if blkSize > rest.Len() {
        blkSize := rest.Len();
      }
      ghost var v1, chunk := vol.View(), rest.Take(blkSize);
      WriteChunk(vol, blkIndex, blkOffset, rest.Take(blkSize), pos);
      hide *;
      StoreFrontThenRest(v0, v1, vol.View(), offset, done, pos, chunk.Bytes());
      NextBlock(bs, blkIndex, blkOffset, pos);
      TakeDrop(done, rest, blkSize);
      done, pos, rest := done + chunk.Bytes(), pos + blkSize, rest.Drop(blkSize);
      blkIndex, blkOffset, blkSize := blkIndex + 1, 0, bs;
    }
    assert done == data.Bytes();
  }

  lemma TakeDrop(done: seq<byte>, rest: Buffer, n: nat)
    requires n <= rest.Len()
    ensures done + rest.Take(n).Bytes() + rest.Drop(n).Bytes() == done + rest.Bytes()
    ensures |rest.Take(n).Bytes()| == n && rest.Drop(n).Len() == rest.Len() - n
  {
  }

  /** Whole blocks were copied from `src` to `dst` as they were before, and nothing else changed. */
  ghost predicate BlocksCopied(d0: Disk, d1: Disk, bs: BlockSize, dst: nat, src: nat, count: nat) {
    forall b: nat {:trigger Blk(d1, bs, b)} ::
      Blk(d1, bs, b) == if dst <= b < dst + count then Blk(d0, bs, b - dst + src) else Blk(d0, bs, b)
  }

  /** A copy whose place and size are multiples of the block size copies whole blocks. */
  lemma AlignedCopy(d0: Disk, d1: Disk, bs: BlockSize, dst: nat, src: nat, count: nat)
    requires Copied(DiskView(d0, bs), DiskView(d1, bs), dst * bs, src * bs, count * bs)
    ensures BlocksCopied(d0, d1, bs, dst, src, count)
  {
    var lo, from, size := dst * bs, src * bs, count * bs;
    forall b: nat
      ensures Blk(d1, bs, b) == if dst <= b < dst + count then Blk(d0, bs, b - dst + src) else Blk(d0, bs, b)
    {
      var p := b * bs;
      var c := if dst <= b < dst + count then b - dst + src else b;
      AlignedPlace(bs, dst, src, count, b, lo, from, size, p, c * bs);
      assert AtByte(bs, b, 0, p) && AtByte(bs, c, 0, c * bs);
      AlignedBlock(d0, d1, bs, lo, from, size, b, p, c, c * bs);
    }
  }

  lemma AlignedPlace(bs: BlockSize, dst: nat, src: nat, count: nat, b: nat, lo: nat, from: nat, size: nat, p: nat,
                     q: nat)
    requires lo == dst * bs && from == src * bs && size == count * bs && p == b * bs
    requires q == (if dst <= b < dst + count then b - dst + src else b) * bs
    ensures if dst <= b < dst + count then lo <= p && p + bs <= lo + size && q == p - lo + from
            else (p + bs <= lo || lo + size <= p) && q == p
  {
    if b < dst {
      MulLe(b + 1, dst, bs);
      assert (b + 1) * bs == b * bs + bs;
    } else if b < dst + count {
      MulLe(dst, b, bs);
      MulLe(b + 1, dst + count, bs);
      assert (b + 1) * bs == b * bs + bs && (dst + count) * bs == dst * bs + count * bs;
      assert (b - dst + src) * bs == b * bs - dst * bs + src * bs;
    } else {
      MulLe(dst + count, b, bs);
      assert (dst + count) * bs == dst * bs + count * bs;
    }
  }

  lemma AlignedBlock(d0: Disk, d1: Disk, bs: BlockSize, lo: nat, from: nat, size: nat, b: nat, p: nat, c: nat, q: nat)
    requires Copied(DiskView(d0, bs), DiskView(d1, bs), lo, from, size)
    requires AtByte(bs, b, 0, p) && AtByte(bs, c, 0, q)
    requires (lo <= p && p + bs <= lo + size && q == p - lo + from) || ((p + bs <= lo || lo + size <= p) && q == p)
    ensures Blk(d1, bs, b) == Blk(d0, bs, c)
  {
    var v0, v1 := DiskView(d0, bs), DiskView(d1, bs);
    forall o | 0 <= o < bs
      ensures Blk(d1, bs, b)[o] == Blk(d0, bs, c)[o]
    {
      assert v1(p + o) == v0(q + o);
      hide *;
      ViewByte(d1, bs, b, p, o);
      ViewByte(d0, bs, c, q, o);
    }
  }

  lemma ViewByte(d: Disk, bs: BlockSize, b: nat, p: nat, o: nat)
    requires AtByte(bs, b, 0, p) && o < bs
    ensures DiskView(d, bs)(p + o) == Blk(d, bs, b)[o]
  {
    ByteInBlock(bs, b, 0, bs, p, p + o);
    hide Blk, BlockOf, OffsetOf, AtByte;
  }

  /** The volume_memmove of whole blocks, as the file tree uses it. */
  method MemmoveBlocks(vol: Volume, dst: nat, src: nat, count: nat)
    modifies vol
    ensures BlocksCopied(old(vol.store), vol.store, vol.blocksize, dst, src, count)
  {
    ghost var d0 := vol.store;
    VolumeMemmove(vol, dst * vol.blocksize, src * vol.blocksize, count * vol.blocksize);
    AlignedCopy(d0, vol.store, vol.blocksize, dst, src, count);
  }

  /* The way back: what the contract says of bytes fixes the blocks. */

  lemma BlockByte(d: Disk, bs: BlockSize, b: nat, o: nat, p: nat)
    requires o < bs && p == b * bs + o
    ensures DiskView(d, bs)(p) == Blk(d, bs, b)[o] && BlockOf(p, bs) == b
  {
    hide Blk;
    ByteIndexUnique(b, o, bs, p);
  }

  /** Zeros stored over whole blocks discard them. */
  lemma StoredZeros(w0: View, w1: View, bs: BlockSize, index: nat, count: nat)
    requires Stored(w0, w1, index * bs, Zeros(count * bs))
    ensures Discarded(w0, w1, bs, index, count)
  {
    hide BlockOf;
    assert (index + count) * bs == index * bs + count * bs;
    forall p: nat ensures w1(p) == if index <= BlockOf(p, bs) < index + count then 0 else w0(p) {
      BeforeBlock(p, index, bs);
      BeforeBlock(p, index + count, bs);
    }
  }

  /** A discard, said of bytes, clears exactly those blocks. */
  lemma DiscardClears(d0: Disk, d1: Disk, bs: BlockSize, index: nat, count: nat)
    requires Discarded(DiskView(d0, bs), DiskView(d1, bs), bs, index, count)
    ensures BlocksCleared(d0, d1, bs, index, count)
  {
    hide Blk, BlockOf, OffsetOf, DiskView;
    forall b: nat {:trigger Blk(d1, bs, b)}
      ensures Blk(d1, bs, b) == if index <= b < index + count then Zeros(bs) else Blk(d0, bs, b)
    {
      forall o | 0 <= o < bs
        ensures Blk(d1, bs, b)[o] == if index <= b < index + count then 0 else Blk(d0, bs, b)[o]
      {
        var p: nat := b * bs + o;
        BlockByte(d0, bs, b, o, p);
        BlockByte(d1, bs, b, o, p);
      }
    }
  }

  /** A store inside one block, said of bytes, sets just that part of the block. */
  lemma StoreSets(d0: Disk, d1: Disk, bs: BlockSize, b: nat, offset: nat, s: seq<byte>, pos: nat)
    requires offset + |s| <= bs && AtByte(bs, b, offset, pos)
    requires Stored(DiskView(d0, bs), DiskView(d1, bs), pos, s)
    ensures BlockSet(d0, d1, bs, b, Splice(Blk(d0, bs, b), offset, s))
  {
    hide Blk, BlockOf, OffsetOf, DiskView, AtByte;
    forall c: nat ensures Blk(d1, bs, c) == if c == b then Splice(Blk(d0, bs, b), offset, s) else Blk(d0, bs, c) {
      var x := if c == b then Splice(Blk(d0, bs, b), offset, s) else Blk(d0, bs, c);
      forall o | 0 <= o < bs ensures Blk(d1, bs, c)[o] == x[o] {
        var p: nat := c * bs + o;
        BlockByte(d0, bs, c, o, p);
        BlockByte(d1, bs, c, o, p);
        StoredByte(bs, b, offset, |s|, pos, c, o, p);
      }
    }
  }

  lemma StoredByte(bs: BlockSize, b: nat, offset: nat, size: nat, pos: nat, c: nat, o: nat, p: nat)
    requires offset + size <= bs && AtByte(bs, b, offset, pos) && o < bs && p == c * bs + o
    ensures pos <= p < pos + size <==> c == b && offset <= o < offset + size
    ensures c == b ==> p - pos == o - offset
  {
    ByteIndexUnique(c, o, bs, p);
    ByteInBlock(bs, b, offset, size, pos, p);
  }

  lemma CopiedIsStored(v0: View, v1: View, dst: nat, src: nat, s: seq<byte>)
    requires Shows(v0, src, s) && Copied(v0, v1, dst, src, |s|)
    ensures Stored(v0, v1, dst, s)
  {
    forall p: nat {:trigger v1(p)} ensures v1(p) == if dst <= p < dst + |s| then s[p - dst] else v0(p) {
      if dst <= p < dst + |s| {
        assert s[p - dst] == v0(src + (p - dst));
      }
    }
  }
}
