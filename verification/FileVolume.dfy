/** A file of the tree, seen as a volume of its own with any block size. */
module FileVolume {
  import opened Bytes
  import opened Volumes
  import opened Holes
  import opened FileNodes
  import opened Layout
  import opened Moves
  import opened Models
  import opened AppendSteps
  import opened FsTree
  import opened Nesting

  /** What is left after a change of size reads as before, the rest as zeros. */
  ghost predicate ViewCut(v0: View, v1: View, size: nat) {
    forall p: nat {:trigger v1(p)} :: v1(p) == if p < size then v0(p) else 0
  }

  class FileVolume {
    const fs: FsTree
    const node: FileNode
    const blocksize: BlockSize
    const minBlockCount: nat
    const maxBlockCount: nat

    ghost predicate Ready()
      reads fs, fs.volume, fs.files
    {
      fs.Valid() && node in fs.files
    }

    /** The file never has less than the minimum number of blocks. */
    ghost predicate Valid()
      reads fs, fs.volume, fs.files
    {
      Ready() && minBlockCount <= BlockCount(node.size, blocksize)
    }

    /** The contents, extended with zeros. */
    ghost function View(): View
      reads fs, fs.volume, node
    {
      ContentView(fs.ContentsOf(node))
    }

    /** The disk that shows the contents in blocks of this volume. */
    ghost function Disk(): (d: Disk)
      reads fs, fs.volume, node
      ensures OnDisk(d, blocksize, View())
    {
      DiskOfShows(fs.ContentsOf(node), blocksize);
      DiskOf(fs.ContentsOf(node), blocksize)
    }

    ghost function BlockPart(index: nat, offset: nat, size: nat): (s: seq<byte>)
      requires offset + size <= blocksize
      reads fs, fs.volume, node
      ensures |s| == size
    {
      Blk(Disk(), blocksize, index)[offset..offset + size]
    }

    ghost function Model(): (m: FileModel)
      requires node in fs.files
      reads fs, fs.volume, fs.files
      ensures |m.data| == node.size && ContentView(m.data) == View() && m.sparse == HoleSet(node.sparse)
    {
      ModelOf(fs.Snap(), Pos(fs.files, node))
    }

    /** Everything else about the tree is as it was in state `s`. */
    ghost predicate OthersKept(s: State)
      requires node in fs.files
      reads fs, fs.volume, fs.files
    {
      Pos(fs.files, node) < |s.files| && Kept(s, fs.Snap(), Pos(fs.files, node))
    }

    function ByteAt(index: nat, offset: nat): nat {
      index * blocksize + offset
    }

    /** The file has no holes, and gets none. */
    ghost predicate Plain()
      reads fs, node
    {
      fs.noSparse && HoleSet(node.sparse) == {}
    }

    /** A write of `d` at byte `pos` puts nothing into a tail that is taken for sparse. */
    ghost predicate Harmless(pos: nat, d: seq<byte>): (h: bool)
      requires node in fs.files
      reads fs, fs.volume, fs.files
      ensures Plain() ==> h
    {
      WriteHarmless(Model(), fs.volume.blocksize, fs.noSparse, pos, d)
    }

    /** Those are just the writes that replace the range and leave the rest of the contents alone. */
    lemma HarmlessExact(pos: nat, data: Buffer)
      requires Ready()
      ensures Harmless(pos, data.Bytes()) <==>
              FileWritten(Model(), fs.volume.blocksize, fs.noSparse, pos, data).data ==
              Overwritten(Model().data, pos, data.Bytes())
    {
      hide Values, Ok, HoleSet, Contents, FileContents, ModelOf, FileWritten, WriteHarmless, Overwritten, HolesFit,
        SparseReadsZero;
      InOrder(fs.Snap(), Pos(fs.files, node));
      WriteExact(Model(), fs.volume.blocksize, fs.noSparse, pos, data);
    }

    predicate InBounds(index: nat, offset: nat, size: nat) {
      index < maxBlockCount && offset <= blocksize && size <= blocksize - offset
    }

    method GetBlockCount() returns (count: nat)
      ensures count == BlockCount(node.size, blocksize)
    {
      DivMod(node.size, blocksize);
      count := node.size / blocksize;
      if node.size % blocksize != 0 {
        count := count + 1;
      }
    }

    /** The file's change of size, as this volume shows it. */
    method SetSize(size: nat)
      requires Ready()
      modifies fs`dataOffset, fs.volume, fs.files
      ensures Ready() && OthersKept(old(fs.Snap()))
      ensures node.size == size && ViewCut(old(View()), View(), size)
      ensures old(Plain()) ==> Plain()
    {
      hide Values, Shaped, Ok, Kept, HoleSet, Contents, FileContents, ModelOf, Resized, ContentView, ViewCut;
      ghost var m := Model();
      fs.FileTruncate(node, size);
      assert Model() == Resized(m, fs.volume.blocksize, fs.noSparse, size);
      ResizedView(m, fs.volume.blocksize, fs.noSparse, size);
    }

    method ReadPartialBlock(index: nat, offset: nat, size: nat) returns (ok: bool, data: seq<byte>)
      requires Valid()
      ensures ok <==> index < maxBlockCount && offset + size <= blocksize
      ensures ok ==> Shows(View(), ByteAt(index, offset), data) && data == BlockPart(index, offset, size)
    {
      hide Ok, HoleSet, Shows, OnDisk;
      ok, data := InBounds(index, offset, size), [];
      if ok {
        data := fs.FileRead(node, ByteAt(index, offset), size);
        ReadOnDisk(Disk(), blocksize, View(), index, offset, data, ByteAt(index, offset));
      }
    }

    /** A NULL buffer must not straddle the end of the file. */
    method WritePartialBlock(index: nat, data: Buffer, offset: nat) returns (ok: bool)
      requires Valid()
      requires data.Null? ==> ByteAt(index, offset) >= node.size || ByteAt(index, offset) + data.Len() <= node.size
      modifies fs`dataOffset, fs.volume, fs.files
      ensures Valid() && OthersKept(old(fs.Snap()))
      ensures ok <==> index < maxBlockCount && offset + data.Len() <= blocksize
      ensures Model() == if ok
                         then FileWritten(old(Model()), fs.volume.blocksize, fs.noSparse, ByteAt(index, offset), data)
                         else old(Model())
      ensures old(Plain()) ==> Plain()
      ensures ok && old(Harmless(ByteAt(index, offset), data.Bytes())) ==>
                && Stored(old(View()), View(), ByteAt(index, offset), data.Bytes())
                && BlockSet(old(Disk()), Disk(), blocksize, index,
                            Splice(Blk(old(Disk()), blocksize, index), offset, data.Bytes()))
    {
      hide Values, Shaped, Ok, Kept, HoleSet, Contents, FileContents, ModelOf, FileWritten, WriteHarmless, ContentView,
        Stored, BlockCount, OnDisk, DiskOf, Blk, BlockSet, Splice;
      ghost var m, v, d := Model(), View(), Disk();
      InOrder(fs.Snap(), Pos(fs.files, node));
      KeptNothing(fs.Snap(), Pos(fs.files, node));
      ok := InBounds(index, offset, data.Len());
      if ok {
        fs.FileWrite(node, ByteAt(index, offset), data);
        CountMonotone(|m.data|, node.size, blocksize);
        WrittenView(m, fs.volume.blocksize, fs.noSparse, ByteAt(index, offset), data);
        if WriteHarmless(m, fs.volume.blocksize, fs.noSparse, ByteAt(index, offset), data.Bytes()) {
          assert ContentView(m.data) == v && ContentView(Model().data) == View();
          StoredOnDisk(d, Disk(), blocksize, v, View(), index, offset, data.Bytes(), ByteAt(index, offset));
        }
      }
    }

    method ReadBlock(index: nat) returns (ok: bool, data: seq<byte>)
      requires Valid()
      ensures ok <==> index < maxBlockCount
      ensures ok ==> Shows(View(), ByteAt(index, 0), data) && data == Blk(Disk(), blocksize, index)
    {
      ok, data := ReadPartialBlock(index, 0, blocksize);
    }

    method WriteBlock(index: nat, data: Buffer) returns (ok: bool)
      requires Valid() && data.Len() == blocksize
      requires data.Null? ==> ByteAt(index, 0) >= node.size || ByteAt(index, 0) + blocksize <= node.size
      modifies fs`dataOffset, fs.volume, fs.files
      ensures Valid() && OthersKept(old(fs.Snap()))
      ensures ok <==> index < maxBlockCount
      ensures Model() == if ok
                         then FileWritten(old(Model()), fs.volume.blocksize, fs.noSparse, ByteAt(index, 0), data)
                         else old(Model())
      ensures old(Plain()) ==> Plain()
      ensures ok && old(Harmless(ByteAt(index, 0), data.Bytes())) ==>
                && Stored(old(View()), View(), ByteAt(index, 0), data.Bytes())
                && BlockSet(old(Disk()), Disk(), blocksize, index, data.Bytes())
    {
      hide Kept, Ok, HoleSet, FileWritten, WriteHarmless, Stored, ContentView, FileContents, OnDisk, DiskOf, Blk;
      ok := WritePartialBlock(index, data, 0);
    }

    /** The part is read into a buffer and written from there, so that overlaps do not matter. */
    method MoveBlockPartial(src: nat, dst: nat, srcOffset: nat, dstOffset: nat, size: nat) returns (ok: bool)
      requires Valid()
      modifies fs`dataOffset, fs.volume, fs.files
      ensures Valid() && OthersKept(old(fs.Snap()))
      ensures ok <==> && src < maxBlockCount && srcOffset + size <= blocksize
                      && dst < maxBlockCount && dstOffset + size <= blocksize
      ensures Model() == if ok
                         then FileWritten(old(Model()), fs.volume.blocksize, fs.noSparse, ByteAt(dst, dstOffset),
                                          Data(old(BlockPart(src, srcOffset, size))))
                         else old(Model())
      ensures old(Plain()) ==> Plain()
      ensures ok && old(Harmless(ByteAt(dst, dstOffset), BlockPart(src, srcOffset, size))) ==>
                && Copied(old(View()), View(), ByteAt(dst, dstOffset), ByteAt(src, srcOffset), size)
                && BlockSet(old(Disk()), Disk(), blocksize, dst,
                            Splice(Blk(old(Disk()), blocksize, dst), dstOffset, old(BlockPart(src, srcOffset, size))))
    {
      hide Kept, Ok, HoleSet, FileWritten, WriteHarmless, Stored, Shows, Copied, ContentView, FileContents, OnDisk,
        DiskOf, Blk, BlockSet, Splice;
      KeptNothing(fs.Snap(), Pos(fs.files, node));
      ghost var v := View();
      var scratch;
      ok, scratch := ReadPartialBlock(src, srcOffset, size);
      if ok {
        ghost var harmless := Harmless(ByteAt(dst, dstOffset), scratch);
        ok := WritePartialBlock(dst, Data(scratch), dstOffset);
        if ok && harmless {
          ShownThenStored(v, View(), ByteAt(dst, dstOffset), ByteAt(src, srcOffset), scratch);
        }
      }
    }

    method MoveBlock(src: nat, dst: nat) returns (ok: bool)
      requires Valid()
      modifies fs`dataOffset, fs.volume, fs.files
      ensures Valid() && OthersKept(old(fs.Snap()))
      ensures ok <==> src < maxBlockCount && dst < maxBlockCount
      ensures Model() == if ok
                         then FileWritten(old(Model()), fs.volume.blocksize, fs.noSparse, ByteAt(dst, 0),
                                          Data(Blk(old(Disk()), blocksize, src)))
                         else old(Model())
      ensures old(Plain()) ==> Plain()
      ensures ok && old(Harmless(ByteAt(dst, 0), Blk(Disk(), blocksize, src))) ==>
                && Copied(old(View()), View(), ByteAt(dst, 0), ByteAt(src, 0), blocksize)
                && BlockSet(old(Disk()), Disk(), blocksize, dst, Blk(old(Disk()), blocksize, src))
    {
      hide Kept, Ok, HoleSet, FileWritten, WriteHarmless, Copied, ContentView, FileContents, OnDisk, DiskOf, Blk;
      assert Blk(Disk(), blocksize, src)[0..blocksize] == Blk(Disk(), blocksize, src);
      ok := MoveBlockPartial(src, dst, 0, 0, blocksize);
    }

    /** Blocks before the last one are overwritten. */
    method DiscardInside(index: nat, count: nat)
      requires Ready() && index + count < BlockCount(node.size, blocksize)
      modifies fs`dataOffset, fs.volume, fs.files
      ensures Ready() && OthersKept(old(fs.Snap())) && node.size == old(node.size)
      ensures Discarded(old(View()), View(), blocksize, index, count)
      ensures old(Plain()) ==> Plain()
    {
      hide Values, Shaped, Ok, Kept, HoleSet, Contents, FileContents, ModelOf, FileWritten, ContentView, Stored,
        BlockCount, Discarded, BlockOf, OffsetOf;
      ghost var m := Model();
      LastBlocks(node.size, blocksize, index, count);
      fs.FileWrite(node, index * blocksize, Null(count * blocksize));
      assert Model() == FileWritten(m, fs.volume.blocksize, fs.noSparse, index * blocksize, Null(count * blocksize));
      DiscardedInside(m, fs.volume.blocksize, fs.noSparse, blocksize, index, count);
    }

    /** Where the range reaches the end, the file is cut, and filled up to the minimum. */
    method DiscardToEnd(index: nat, count: nat)
      requires Valid() && index + count >= BlockCount(node.size, blocksize)
      modifies fs`dataOffset, fs.volume, fs.files
      ensures Valid() && OthersKept(old(fs.Snap()))
      ensures Discarded(old(View()), View(), blocksize, index, count)
      ensures old(Plain()) ==> Plain()
    {
      hide Values, Shaped, Ok, Kept, HoleSet, Contents, FileContents, ModelOf, ContentView, BlockCount, Discarded,
        ViewCut, BlockOf, OffsetOf;
      ghost var s, i, m := fs.Snap(), Pos(fs.files, node), Model();
      WholeBlocks(index, blocksize);
      SetSize(index * blocksize);
      if index < minBlockCount {
        ghost var r, v := fs.Snap(), View();
        WholeBlocks(minBlockCount, blocksize);
        MulLe(index, minBlockCount, blocksize);
        SetSize(minBlockCount * blocksize);
        KeptAfter(s, r, fs.Snap(), i);
        CutTwice(ContentView(m.data), v, View(), index * blocksize, minBlockCount * blocksize);
      }
      DiscardedBehind(m.data, View(), blocksize, index, count);
    }

    method DiscardBlocks(index: nat, count: nat)
      requires Valid()
      modifies fs`dataOffset, fs.volume, fs.files
      ensures Valid() && OthersKept(old(fs.Snap()))
      ensures Discarded(old(View()), View(), blocksize, index, count)
      ensures BlocksCleared(old(Disk()), Disk(), blocksize, index, count)
      ensures old(Plain()) ==> Plain()
    {
      hide Values, Shaped, Ok, Kept, HoleSet, Contents, FileContents, ModelOf, ContentView, BlockCount, Discarded,
        BlockOf, OffsetOf, OnDisk, DiskOf, BlocksCleared;
      ghost var v, d := View(), Disk();
      var blkCount := GetBlockCount();
      if index >= blkCount {
        KeptNothing(fs.Snap(), Pos(fs.files, node));
        NothingThere(Model().data, blocksize, index, count);
      } else if count < blkCount - index {
        DiscardInside(index, count);
      } else {
        DiscardToEnd(index, count);
      }
      DiscardedOnDisk(d, Disk(), blocksize, v, View(), index, count);
    }

    /** Sizes up to the minimum change nothing, sizes beyond the maximum are refused. */
    method Truncate(size: nat) returns (ok: bool)
      requires Valid()
      modifies fs`dataOffset, fs.volume, fs.files
      ensures Valid() && OthersKept(old(fs.Snap()))
      ensures ok <==> BlockCount(size, blocksize) <= maxBlockCount || BlockCount(size, blocksize) <= minBlockCount
      ensures if ok && BlockCount(size, blocksize) > minBlockCount
              then node.size == size && ViewCut(old(View()), View(), size)
              else Model() == old(Model())
      ensures old(Plain()) ==> Plain()
    {
      hide Values, Shaped, Ok, Kept, HoleSet, FileContents, ContentView, ViewCut, BlockOf, OffsetOf;
      KeptNothing(fs.Snap(), Pos(fs.files, node));
      DivMod(size, blocksize);
      var count := size / blocksize;
      if size % blocksize != 0 {
        count := count + 1;
      }
      if count <= minBlockCount {
        return true;
      }
      if count > maxBlockCount {
        return false;
      }
      SetSize(size);
      return true;
    }

    /** A file that is too small for the minimum size is filled up with zeros, which no reader of the volume sees. */
    constructor (fs: FsTree, n: FileNode, blocksize: BlockSize, minSize: nat, maxSize: nat)
      requires fs.Valid() && n in fs.files
      modifies fs`dataOffset, fs.volume, fs.files
      ensures Valid() && this.fs == fs && node == n && this.blocksize == blocksize
      ensures minBlockCount == BlockCount(minSize, blocksize) && maxBlockCount == BlockOf(maxSize, blocksize)
      ensures OthersKept(old(fs.Snap()))
      ensures Stored(ContentView(old(fs.ContentsOf(n))), View(), 0, [])
      ensures old(fs.noSparse) && HoleSet(old(n.sparse)) == {} ==> Plain()
    {
      this.fs, node, this.blocksize := fs, n, blocksize;
      DivMod(maxSize, blocksize);
      DivMod(minSize, blocksize);
      maxBlockCount := maxSize / blocksize;
      minBlockCount := minSize / blocksize + if minSize % blocksize != 0 then 1 else 0;
      new;
      KeptNothing(fs.Snap(), Pos(fs.files, n));
      var blkUsed := GetBlockCount();
      if minBlockCount > 0 && blkUsed < minBlockCount {
        LargerCount(n.size, blocksize, minBlockCount);
        WholeBlocks(minBlockCount, blocksize);
        SetSize(minBlockCount * blocksize);
      }
    }
  }

  lemma ResizedView(m: FileModel, bs: BlockSize, noSparse: bool, size: nat)
    ensures ViewCut(ContentView(m.data), ContentView(Resized(m, bs, noSparse, size).data), size)
    ensures noSparse && m.sparse == {} ==> Resized(m, bs, noSparse, size).sparse == {}
  {
    hide Filled, BlockCount;
    ResizedData(m, bs, noSparse, size);
    if noSparse && m.sparse == {} {
      FilledNoHoles(m, bs, size);
    }
  }

  lemma WrittenView(m: FileModel, bs: BlockSize, noSparse: bool, offset: nat, data: Buffer)
    requires HolesFit(m, bs) && SparseReadsZero(m, bs)
    ensures var w := FileWritten(m, bs, noSparse, offset, data);
            && (noSparse && m.sparse == {} ==> w.sparse == {})
            && (WriteHarmless(m, bs, noSparse, offset, data.Bytes()) ==>
                  Stored(ContentView(m.data), ContentView(w.data), offset, data.Bytes()))
  {
    hide FileWritten, WriteHarmless, HolesFit, SparseReadsZero;
    if noSparse && m.sparse == {} {
      FileWrittenNoHoles(m, bs, offset, data);
    }
    WriteExact(m, bs, noSparse, offset, data);
    OverwrittenView(m.data, offset, data.Bytes());
  }

  lemma OverwrittenView(c: seq<byte>, offset: nat, d: seq<byte>)
    ensures Stored(ContentView(c), ContentView(Overwritten(c, offset, d)), offset, d)
  {
  }

  lemma WholeBlocks(n: nat, bs: BlockSize)
    ensures 0 <= n * bs && BlockCount(n * bs, bs) == n
    ensures forall p: nat :: p < n * bs <==> BlockOf(p, bs) < n
  {
    ByteIndexUnique(n, 0, bs, n * bs);
    forall p: nat ensures p < n * bs <==> BlockOf(p, bs) < n {
      BeforeBlock(p, n, bs);
    }
  }

  lemma LargerCount(size: nat, bs: BlockSize, n: nat)
    requires BlockCount(size, bs) <= n
    ensures size <= n * bs
  {
    hide BlockOf, OffsetOf;
    ByteIndex(size, bs);
    MulLe(BlockCount(size, bs), n, bs);
    assert (BlockOf(size, bs) + 1) * bs == BlockOf(size, bs) * bs + bs;
  }

  /** Blocks before the last one of a file lie inside the file. */
  lemma LastBlocks(size: nat, bs: BlockSize, index: nat, count: nat)
    requires index + count < BlockCount(size, bs)
    ensures 0 <= index * bs && 0 <= count * bs && index * bs + count * bs <= size
  {
    hide BlockOf, OffsetOf;
    ByteIndex(size, bs);
    MulLe(index + count, BlockOf(size, bs), bs);
    assert (index + count) * bs == index * bs + count * bs;
  }

  lemma NothingThere(c: seq<byte>, bs: BlockSize, index: nat, count: nat)
    requires index >= BlockCount(|c|, bs)
    ensures Discarded(ContentView(c), ContentView(c), bs, index, count)
  {
    hide BlockOf, BlockCount;
    forall p: nat | index <= BlockOf(p, bs) ensures p >= |c| {
      if p < |c| {
        CountAbove(|c|, bs, p);
      }
    }
  }

  lemma DiscardedInside(m: FileModel, fbs: BlockSize, noSparse: bool, bs: BlockSize, index: nat, count: nat)
    requires 0 <= index * bs && 0 <= count * bs && index * bs + count * bs <= |m.data|
    ensures var w := FileWritten(m, fbs, noSparse, index * bs, Null(count * bs));
            && Discarded(ContentView(m.data), ContentView(w.data), bs, index, count)
            && (noSparse && m.sparse == {} ==> w.sparse == {})
  {
    hide FileWritten, BlockOf;
    var lo: nat, n: nat := index * bs, count * bs;
    var d := Null(n);
    InsideExact(m, fbs, noSparse, lo, d);
    OverwrittenView(m.data, lo, d.Bytes());
    assert (index + count) * bs == lo + n;
    WholeBlocks(index, bs);
    WholeBlocks(index + count, bs);
    if noSparse && m.sparse == {} {
      FileWrittenNoHoles(m, fbs, lo, d);
    }
  }

  lemma CutTwice(v0: View, v1: View, v2: View, a: nat, b: nat)
    requires ViewCut(v0, v1, a) && ViewCut(v1, v2, b) && a <= b
    ensures ViewCut(v0, v2, a)
  {
    forall p: nat ensures v2(p) == if p < a then v0(p) else 0 {
      assert v1(p) == if p < a then v0(p) else 0;
    }
  }

  lemma DiscardedBehind(c: seq<byte>, v1: View, bs: BlockSize, index: nat, count: nat)
    requires 0 <= index * bs && ViewCut(ContentView(c), v1, index * bs) && index + count >= BlockCount(|c|, bs)
    ensures Discarded(ContentView(c), v1, bs, index, count)
  {
    hide BlockOf, BlockCount;
    WholeBlocks(index, bs);
    forall p: nat | index + count <= BlockOf(p, bs) ensures p >= |c| {
      if p < |c| {
        CountAbove(|c|, bs, p);
      }
    }
  }
}
