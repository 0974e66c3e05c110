/** The block-size adapter: a byte window of another volume, with blocks of another size. */
module Adapter {
  import opened Bytes
  import opened Volumes
  import opened Nesting

  const MAX64: nat := 0xFFFF_FFFF_FFFF_FFFF

  /** What a view shows from byte `offset` on. */
  ghost function Window(v: View, offset: nat): View {
    (p: nat) => v(offset + p)
  }

  ghost predicate SameBefore(v0: View, v1: View, offset: nat) {
    forall p: nat {:trigger v1(p)} | p < offset :: v1(p) == v0(p)
  }

  /* An operation in the window is the same operation at the shifted place, and nothing before the window changes. */

  lemma WindowShows(v: View, offset: nat, pos: nat, s: seq<byte>)
    ensures Shows(Window(v, offset), pos, s) <==> Shows(v, offset + pos, s)
  {
  }

  lemma WindowStored(v0: View, v1: View, offset: nat, pos: nat, s: seq<byte>)
    ensures Stored(Window(v0, offset), Window(v1, offset), pos, s) && SameBefore(v0, v1, offset) <==>
            Stored(v0, v1, offset + pos, s)
  {
    var w0, w1 := Window(v0, offset), Window(v1, offset);
    if Stored(w0, w1, pos, s) && SameBefore(v0, v1, offset) {
      forall p: nat ensures v1(p) == if offset + pos <= p < offset + pos + |s| then s[p - offset - pos] else v0(p) {
        if p >= offset {
          assert w1(p - offset) == v1(p) && w0(p - offset) == v0(p);
        }
      }
    }
  }

  lemma WindowCopied(v0: View, v1: View, offset: nat, dst: nat, src: nat, size: nat)
    ensures Copied(Window(v0, offset), Window(v1, offset), dst, src, size) && SameBefore(v0, v1, offset) <==>
            Copied(v0, v1, offset + dst, offset + src, size)
  {
    hide Window, Copied, SameBefore;
    if Copied(Window(v0, offset), Window(v1, offset), dst, src, size) && SameBefore(v0, v1, offset) {
      CopiedOutside(v0, v1, offset, dst, src, size, offset + dst, offset + src);
    }
    if Copied(v0, v1, offset + dst, offset + src, size) {
      CopiedInside(v0, v1, offset, dst, src, size, offset + dst, offset + src);
    }
  }

  lemma CopiedOutside(v0: View, v1: View, offset: nat, dst: nat, src: nat, size: nat, d: nat, s: nat)
    requires Copied(Window(v0, offset), Window(v1, offset), dst, src, size) && SameBefore(v0, v1, offset)
    requires d == offset + dst && s == offset + src
    ensures Copied(v0, v1, d, s, size)
  {
    var w0, w1 := Window(v0, offset), Window(v1, offset);
    forall p: nat {:trigger v1(p)} ensures v1(p) == if d <= p < d + size then v0(p - d + s) else v0(p) {
      if p >= offset {
        var r: nat := p - offset;
        assert w1(r) == v1(p) && w0(r) == v0(p);
        if dst <= r < dst + size {
          assert w0(r - dst + src) == v0(p - d + s);
        }
      } else {
        assert v1(p) == v0(p);
      }
    }
  }

  lemma CopiedInside(v0: View, v1: View, offset: nat, dst: nat, src: nat, size: nat, d: nat, s: nat)
    requires Copied(v0, v1, d, s, size)
    requires d == offset + dst && s == offset + src
    ensures Copied(Window(v0, offset), Window(v1, offset), dst, src, size) && SameBefore(v0, v1, offset)
  {
    var w0, w1 := Window(v0, offset), Window(v1, offset);
    forall r: nat ensures w1(r) == if dst <= r < dst + size then w0(r - dst + src) else w0(r) {
      var p := offset + r;
      assert w1(r) == v1(p) && w0(r) == v0(p);
      if dst <= r < dst + size {
        assert w0(r - dst + src) == v0(p - d + s);
      }
    }
  }

  /** A window of a window is a window. */
  lemma WindowOfWindow(v: View, a: nat, b: nat, p: nat)
    ensures Window(Window(v, a), b)(p) == Window(v, a + b)(p)
  {
  }

  /** The disk that shows the window. */
  ghost function WindowDisk(d: Disk, wrappedBs: BlockSize, offset: nat, bs: BlockSize): (w: Disk)
    ensures OnDisk(w, bs, Window(DiskView(d, wrappedBs), offset))
  {
    var v, n: nat := Window(DiskView(d, wrappedBs), offset), Reach(d) * wrappedBs;
    var c := seq(n, (p: nat) => v(p));
    NothingBehind(d, wrappedBs, offset, c);
    DiskOfShows(c, bs);
    DiskOf(c, bs)
  }

  lemma NothingBehind(d: Disk, wrappedBs: BlockSize, offset: nat, c: seq<byte>)
    requires |c| == Reach(d) * wrappedBs && forall p | 0 <= p < |c| :: c[p] == Window(DiskView(d, wrappedBs), offset)(p)
    ensures forall p: nat :: ContentView(c)(p) == Window(DiskView(d, wrappedBs), offset)(p)
  {
    hide BlockOf, OffsetOf;
    forall p: nat ensures ContentView(c)(p) == Window(DiskView(d, wrappedBs), offset)(p) {
      BeforeBlock(offset + p, Reach(d), wrappedBs);
    }
  }

  /**
   * How many whole blocks of `bs` bytes fit behind `offset` in `count` blocks of the wrapped volume; the product is
   * capped at 64 bits.
   */
  function ConvBlkCount(count: nat, wrappedBs: BlockSize, offset: nat, bs: BlockSize): nat {
    var bytes := if count * wrappedBs > MAX64 then MAX64 else count * wrappedBs;
    if bytes < offset then 0 else (bytes - offset) / bs
  }

  /** A block index is in bounds exactly if the whole block fits. */
  lemma CountExact(count: nat, wrappedBs: BlockSize, offset: nat, bs: BlockSize, index: nat)
    ensures index < ConvBlkCount(count, wrappedBs, offset, bs) <==>
            offset + (index + 1) * bs <= (if count * wrappedBs > MAX64 then MAX64 else count * wrappedBs)
  {
    var bytes := if count * wrappedBs > MAX64 then MAX64 else count * wrappedBs;
    assert (index + 1) * bs > 0;
    if bytes >= offset {
      hide *;
      FitsBlocks(bytes - offset, bs, index + 1);
    }
  }

  /** What is in bounds for an adapter on an adapter is in bounds for one adapter with both offsets. */
  lemma NestedBounds(count: nat, bs0: BlockSize, o1: nat, bs1: BlockSize, o2: nat, bs2: BlockSize, index: nat)
    requires count * bs0 <= MAX64
    requires index < ConvBlkCount(ConvBlkCount(count, bs0, o1, bs1), bs1, o2, bs2)
    ensures index < ConvBlkCount(count, bs0, o1 + o2, bs2)
  {
    hide ConvBlkCount;
    var n := ConvBlkCount(count, bs0, o1, bs1);
    CountExact(n, bs1, o2, bs2, index);
    CountExact(count, bs0, o1 + o2, bs2, index);
    if n > 0 {
      CountExact(count, bs0, o1, bs1, n - 1);
    }
  }

  /** If the inner adapter's blocks leave no rest, the bounds are even the same. */
  lemma NestedExact(count: nat, bs0: BlockSize, o1: nat, bs1: BlockSize, o2: nat, bs2: BlockSize, index: nat, n: nat)
    requires count * bs0 <= MAX64 && count * bs0 == o1 + n * bs1
    ensures index < ConvBlkCount(ConvBlkCount(count, bs0, o1, bs1), bs1, o2, bs2) <==>
            index < ConvBlkCount(count, bs0, o1 + o2, bs2)
  {
    hide ConvBlkCount;
    var m := ConvBlkCount(count, bs0, o1, bs1);
    CountExact(count, bs0, o1, bs1, n);
    assert (n + 1) * bs1 == n * bs1 + bs1;
    if n > 0 {
      CountExact(count, bs0, o1, bs1, n - 1);
    }
    assert m == n;
    CountExact(n, bs1, o2, bs2, index);
    CountExact(count, bs0, o1 + o2, bs2, index);
  }

  class BlocksizeAdapter {
    const wrapped: Volume
    const blocksize: BlockSize
    const offset: nat
    // what the wrapped volume reports
    const wrappedMax: nat

    constructor (vol: Volume, bs: BlockSize, offset: nat, maxCount: nat)
      ensures wrapped == vol && blocksize == bs && this.offset == offset && wrappedMax == maxCount
    {
      wrapped, blocksize, this.offset, wrappedMax := vol, bs, offset, maxCount;
    }

    ghost function View(): View
      reads wrapped
    {
      Window(wrapped.View(), offset)
    }

    /** The disk that shows the window in blocks of this adapter. */
    ghost function Disk(): (d: Disk)
      reads wrapped
      ensures OnDisk(d, blocksize, View())
    {
      WindowDisk(wrapped.store, wrapped.blocksize, offset, blocksize)
    }

    ghost function BlockPart(index: nat, blkOffset: nat, size: nat): (s: seq<byte>)
      requires blkOffset + size <= blocksize
      reads wrapped
      ensures |s| == size
    {
      Blk(Disk(), blocksize, index)[blkOffset..blkOffset + size]
    }

    function GetMaxBlockCount(): nat {
      ConvBlkCount(wrappedMax, wrapped.blocksize, offset, blocksize)
    }

    /** A block is one of the adapter exactly if all of it lies in the wrapped volume, as far as 64 bits count that. */
    lemma MaxExact(index: nat)
      ensures index < GetMaxBlockCount() <==>
              offset + (index + 1) * blocksize <=
              (if wrappedMax * wrapped.blocksize > MAX64 then MAX64 else wrappedMax * wrapped.blocksize)
    {
      hide ConvBlkCount;
      CountExact(wrappedMax, wrapped.blocksize, offset, blocksize, index);
    }

    function ByteAt(index: nat, blkOffset: nat): nat {
      index * blocksize + blkOffset
    }

    predicate InBounds(index: nat, blkOffset: nat, size: nat) {
      index < GetMaxBlockCount() && blkOffset <= blocksize && size <= blocksize - blkOffset
    }

    method ReadPartialBlock(index: nat, blkOffset: nat, size: nat) returns (ok: bool, data: seq<byte>)
      ensures ok <==> index < GetMaxBlockCount() && blkOffset + size <= blocksize
      ensures ok ==> Shows(View(), ByteAt(index, blkOffset), data) && data == BlockPart(index, blkOffset, size)
    {
      hide Shows, OnDisk, Window, DiskView, WindowDisk, Blk, ConvBlkCount;
      ok, data := InBounds(index, blkOffset, size), [];
      if ok {
        data := VolumeRead(wrapped, offset + ByteAt(index, blkOffset), size);
        WindowShows(wrapped.View(), offset, ByteAt(index, blkOffset), data);
        ReadOnDisk(Disk(), blocksize, View(), index, blkOffset, data, ByteAt(index, blkOffset));
      }
    }

    method WritePartialBlock(index: nat, data: Buffer, blkOffset: nat) returns (ok: bool)
      modifies wrapped
      ensures ok <==> index < GetMaxBlockCount() && blkOffset + data.Len() <= blocksize
      ensures if ok
              then && Stored(old(View()), View(), ByteAt(index, blkOffset), data.Bytes())
                   && SameBefore(old(wrapped.View()), wrapped.View(), offset)
                   && BlockSet(old(Disk()), Disk(), blocksize, index,
                               Splice(Blk(old(Disk()), blocksize, index), blkOffset, data.Bytes()))
              else wrapped.store == old(wrapped.store)
    {
      hide Stored, SameBefore, OnDisk, Window, DiskView, WindowDisk, Blk, ConvBlkCount, BlockSet, Splice;
      ok := InBounds(index, blkOffset, data.Len());
      if ok {
        ghost var v, w, d := wrapped.View(), View(), Disk();
        VolumeWrite(wrapped, offset + ByteAt(index, blkOffset), data);
        WindowStored(v, wrapped.View(), offset, ByteAt(index, blkOffset), data.Bytes());
        StoredOnDisk(d, Disk(), blocksize, w, View(), index, blkOffset, data.Bytes(), ByteAt(index, blkOffset));
      }
    }

    /** What lies out of bounds is left out without an error. */
    method DiscardBlocks(index: nat, count: nat)
      modifies wrapped
      ensures var max := GetMaxBlockCount();
              var n: nat := if index >= max then 0 else if count > max - index then max - index else count;
              && Discarded(old(View()), View(), blocksize, index, n)
              && SameBefore(old(wrapped.View()), wrapped.View(), offset)
              && BlocksCleared(old(Disk()), Disk(), blocksize, index, n)
    {
      hide Discarded, Stored, SameBefore, OnDisk, Window, WindowDisk, BlockOf, OffsetOf, DiskView, Blk, ConvBlkCount,
        BlocksCleared;
      ghost var v, w, d := wrapped.View(), View(), Disk();
      var max := GetMaxBlockCount();
      if index >= max {
        NothingDiscarded(v, blocksize, index, offset);
        DiscardedOnDisk(d, Disk(), blocksize, w, View(), index, 0);
        return;
      }
      var n := if count > max - index then max - index else count;
      var at: nat, size: nat := index * blocksize, n * blocksize;
      VolumeWrite(wrapped, offset + at, Null(size));
      WindowStored(v, wrapped.View(), offset, at, Zeros(size));
      StoredZeros(Window(v, offset), View(), blocksize, index, n);
      DiscardedOnDisk(d, Disk(), blocksize, w, View(), index, n);
    }

    method MoveBlock(src: nat, dst: nat)
      modifies wrapped
      ensures Copied(old(View()), View(), ByteAt(dst, 0), ByteAt(src, 0), blocksize)
      ensures SameBefore(old(wrapped.View()), wrapped.View(), offset)
      ensures BlockSet(old(Disk()), Disk(), blocksize, dst, Blk(old(Disk()), blocksize, src))
    {
      hide Copied, SameBefore, OnDisk, Window, WindowDisk, BlockOf, OffsetOf, DiskView, Blk, ConvBlkCount, BlockSet;
      ghost var v, w, d := wrapped.View(), View(), Disk();
      VolumeMemmove(wrapped, offset + ByteAt(dst, 0), offset + ByteAt(src, 0), blocksize);
      WindowCopied(v, wrapped.View(), offset, ByteAt(dst, 0), ByteAt(src, 0), blocksize);
      CopiedOnDisk(d, Disk(), blocksize, w, View(), src, 0, dst, 0, blocksize, ByteAt(src, 0), ByteAt(dst, 0));
      WholeBlock(Blk(d, blocksize, dst), Blk(d, blocksize, src));
    }

    method MoveBlockPartial(src: nat, dst: nat, srcOffset: nat, dstOffset: nat, size: nat) returns (ok: bool)
      modifies wrapped
      ensures ok <==> && src < GetMaxBlockCount() && srcOffset + size <= blocksize
                      && dst < GetMaxBlockCount() && dstOffset + size <= blocksize
      ensures if ok
              then && Copied(old(View()), View(), ByteAt(dst, dstOffset), ByteAt(src, srcOffset), size)
                   && SameBefore(old(wrapped.View()), wrapped.View(), offset)
                   && BlockSet(old(Disk()), Disk(), blocksize, dst,
                               Splice(Blk(old(Disk()), blocksize, dst), dstOffset,
                                      old(BlockPart(src, srcOffset, size))))
              else wrapped.store == old(wrapped.store)
    {
      hide Copied, Stored, Shows, SameBefore, OnDisk, Window, WindowDisk, BlockOf, OffsetOf, DiskView, Blk,
        ConvBlkCount, BlockSet, Splice;
      ghost var w := View();
      var scratch;
      ok, scratch := ReadPartialBlock(src, srcOffset, size);
      if ok {
        ok := WritePartialBlock(dst, Data(scratch), dstOffset);
        if ok {
          ShownThenStored(w, View(), ByteAt(dst, dstOffset), ByteAt(src, srcOffset), scratch);
        }
      }
    }
  }

  lemma WholeBlock(x: seq<byte>, y: seq<byte>)
    requires |x| == |y|
    ensures Splice(x, 0, y[0..|y|]) == y
  {
  }

  lemma NothingDiscarded(v: View, bs: BlockSize, index: nat, offset: nat)
    ensures Discarded(Window(v, offset), Window(v, offset), bs, index, 0) && SameBefore(v, v, offset)
  {
  }
}
